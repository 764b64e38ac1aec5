/** The part of a Python syntax tree that the analyser looks at, the names an assignment
    target binds (`iter_assigned_names`), and the names a `del` target removes. */
module Syntax {
  import opened Options

  /** Expression context of a name: Store and Param where a name is bound, Del under a
      `del` statement, Load elsewhere. */
  datatype Ctx = Load | Store | Del | Param

  /** The parameter names of a function header, in the order the analyser defines them. */
  datatype Params = Params(
    posonly: seq<string>,
    args: seq<string>,
    vararg: Option<string>,
    kwonly: seq<string>,
    kwarg: Option<string>)

  /** `import name` or `import name as asname`. */
  datatype Alias = Alias(name: string, asname: Option<string>)

  /** The node kinds the analyser distinguishes, with the fields it reads. Child nodes are
      kept in `Node.kids`, in the order in which the syntax tree lists them; the layout per
      kind is:
        FunctionDef (also async), ClassDef, Other: any child nodes;
        Assign: the targets, then the assigned value;
        AnnAssign, AugAssign, NamedExpr, For (also async), Comprehension: the target first;
        With (also async): its items (WithItem nodes), then the body;
        WithItem: the context expression, then the bound variables when there are any;
        Delete: the targets; every name a target binds (through tuples, lists and starred
          values) carries the Del context, and attribute and subscript targets bind none;
        Tuple, List: the elements; Starred: the starred value;
        Attribute: the object; Subscript: the object, then the index;
        ExceptHandler: its type and body, which are visited; the branch itself reads none;
        Import (also from-import), Name: no children the analyser uses. */
  datatype Kind =
    | FunctionDef(name: string, lineno: int, endLineno: int, params: Params)
    | ClassDef(name: string, lineno: int, endLineno: int)
    | Assign
    | AnnAssign
    | AugAssign
    | NamedExpr
    | For
    | With
    | WithItem
    | Comprehension
    | Import(aliases: seq<Alias>, lineno: int)
    | ExceptHandler(binding: Option<string>, lineno: int)
    | Delete(lineno: int)
    | Name(id: string, lineno: int, ctx: Ctx)
    | Tuple
    | List
    | Attribute
    | Subscript
    | Starred
    | Other

  datatype Node = Node(kind: Kind, kids: seq<Node>)

  // ---------------------------------------------------------------------------
  // Names a target binds or deletes
  // ---------------------------------------------------------------------------

  /** The contexts in which `iter_assigned_names` accepts a name. */
  const Binding: set<Ctx> := {Store, Param}

  /** The context the parser gives every name under a `del` statement. */
  const Deletion: set<Ctx> := {Del}

  /** The (name, line) pairs of the name nodes of target `t` whose context is in `accept`,
      in source order: the elements of a tuple or list in turn, the value of a starred
      target, nothing from attributes, subscripts or anything else. */
  function NamesIn(t: Node, accept: set<Ctx>): seq<(string, int)>
    decreases t
  {
    match t.kind
    case Name(id, lineno, ctx) => if ctx in accept then [(id, lineno)] else []
    case Tuple => NamesInAll(t.kids, accept)
    case List => NamesInAll(t.kids, accept)
    case Attribute => []
    case Subscript => []
    case Starred => if |t.kids| > 0 then NamesIn(t.kids[0], accept) else []
    case _ => []
  }

  /** The pairs of several targets, concatenated in order. */
  function NamesInAll(ts: seq<Node>, accept: set<Ctx>): seq<(string, int)>
    decreases ts
  {
    if ts == [] then [] else NamesInAll(ts[..|ts| - 1], accept) + NamesIn(ts[|ts| - 1], accept)
  }

  /** `iter_assigned_names`: an outer list grown by a recursive inner visitor. */
  method IterAssignedNames(target: Node) returns (names: seq<(string, int)>)
    ensures names == NamesIn(target, Binding)
  {
    names := CollectNames(target, Binding, []);
  }

  /** The names a `del` target removes: those of its name nodes in the Del context. */
  method IterDeletedNames(target: Node) returns (names: seq<(string, int)>)
    ensures names == NamesIn(target, Deletion)
  {
    names := CollectNames(target, Deletion, []);
  }

  /** The inner visitor: appends what `t` yields to `names`. */
  method CollectNames(t: Node, accept: set<Ctx>, names: seq<(string, int)>) returns (out: seq<(string, int)>)
    ensures out == names + NamesIn(t, accept)
    decreases t
  {
    out := names;
    match t.kind {
      case Name(id, lineno, ctx) =>
        if ctx in accept {
          out := out + [(id, lineno)];
        }
      case Tuple =>
        out := CollectElements(t, accept, out);
      case List =>
        out := CollectElements(t, accept, out);
      case Attribute =>
        return;
      case Subscript =>
        return;
      case Starred =>
        if |t.kids| > 0 {
          out := CollectNames(t.kids[0], accept, out);
        }
      case _ =>
    }
  }

  /** The loop over the elements of a tuple or list target. */
  method CollectElements(t: Node, accept: set<Ctx>, names: seq<(string, int)>) returns (out: seq<(string, int)>)
    ensures out == names + NamesInAll(t.kids, accept)
    decreases t, 0
  {
    out := names;
    var i := 0;
    while i < |t.kids|
      invariant 0 <= i <= |t.kids|
      invariant out == names + NamesInAll(t.kids[..i], accept)
    {
      assert t.kids[..i + 1][..i] == t.kids[..i];
      out := CollectNames(t.kids[i], accept, out);
      i := i + 1;
    }
    assert t.kids[..i] == t.kids;
  }

  /** `t` holds, at its root or below, a name node with a context in `accept` and the id
      and line of `b`. */
  ghost predicate HasName(t: Node, accept: set<Ctx>, b: (string, int))
    decreases t
  {
    || (t.kind.Name? && t.kind.ctx in accept && b == (t.kind.id, t.kind.lineno))
    || exists k :: 0 <= k < |t.kids| && HasName(t.kids[k], accept, b)
  }

  /** Every pair a target yields is the id and line of a name node inside it whose context
      is accepted. */
  lemma {:induction false} NamesInFound(t: Node, accept: set<Ctx>)
    ensures forall b :: b in NamesIn(t, accept) ==> HasName(t, accept, b)
    decreases t
  {
    match t.kind {
      case Tuple => NamesInAllFound(t.kids, accept);
      case List => NamesInAllFound(t.kids, accept);
      case Starred =>
        if |t.kids| > 0 {
          NamesInFound(t.kids[0], accept);
          forall b | b in NamesIn(t, accept) ensures HasName(t, accept, b) {
            assert HasName(t.kids[0], accept, b);
          }
        }
      case _ =>
    }
  }

  lemma {:induction false} NamesInAllFound(ts: seq<Node>, accept: set<Ctx>)
    ensures forall b :: b in NamesInAll(ts, accept) ==> exists k :: 0 <= k < |ts| && HasName(ts[k], accept, b)
    decreases ts
  {
    if ts != [] {
      var init := ts[..|ts| - 1];
      NamesInAllFound(init, accept);
      NamesInFound(ts[|ts| - 1], accept);
      forall b | b in NamesInAll(ts, accept) ensures exists k :: 0 <= k < |ts| && HasName(ts[k], accept, b) {
        if b in NamesInAll(init, accept) {
          var k :| 0 <= k < |init| && HasName(init[k], accept, b);
          assert init[k] == ts[k];
        } else {
          assert HasName(ts[|ts| - 1], accept, b);
        }
      }
    }
  }

  /** Every name node the visitor reaches in `t` (through tuples, lists and starred values)
      has a context in `ctxs`. The parser gives every such name of a `del` target the Del
      context; names inside an attribute or subscript are never reached. */
  ghost predicate OnlyContexts(t: Node, ctxs: set<Ctx>)
    decreases t
  {
    match t.kind
    case Name(_, _, ctx) => ctx in ctxs
    case Tuple => forall k :: 0 <= k < |t.kids| ==> OnlyContexts(t.kids[k], ctxs)
    case List => forall k :: 0 <= k < |t.kids| ==> OnlyContexts(t.kids[k], ctxs)
    case Starred => |t.kids| > 0 ==> OnlyContexts(t.kids[0], ctxs)
    case _ => true
  }

  /** A target none of whose name nodes has an accepted context yields nothing. */
  lemma {:induction false} NamesInNone(t: Node, accept: set<Ctx>, ctxs: set<Ctx>)
    requires accept !! ctxs && OnlyContexts(t, ctxs)
    ensures NamesIn(t, accept) == []
    decreases t
  {
    match t.kind {
      case Tuple => NamesInAllNone(t.kids, accept, ctxs);
      case List => NamesInAllNone(t.kids, accept, ctxs);
      case Starred =>
        if |t.kids| > 0 {
          NamesInNone(t.kids[0], accept, ctxs);
        }
      case _ =>
    }
  }

  lemma {:induction false} NamesInAllNone(ts: seq<Node>, accept: set<Ctx>, ctxs: set<Ctx>)
    requires accept !! ctxs
    requires forall k :: 0 <= k < |ts| ==> OnlyContexts(ts[k], ctxs)
    ensures NamesInAll(ts, accept) == []
    decreases ts
  {
    if ts != [] {
      NamesInAllNone(ts[..|ts| - 1], accept, ctxs);
      NamesInNone(ts[|ts| - 1], accept, ctxs);
    }
  }

  /** The pairs of a list of targets are those of its parts, concatenated in order. */
  lemma {:induction false} NamesInAllAppend(xs: seq<Node>, ys: seq<Node>, accept: set<Ctx>)
    ensures NamesInAll(xs + ys, accept) == NamesInAll(xs, accept) + NamesInAll(ys, accept)
    decreases ys
  {
    if ys == [] {
      assert xs + ys == xs;
    } else {
      assert (xs + ys)[..|xs + ys| - 1] == xs + ys[..|ys| - 1];
      NamesInAllAppend(xs, ys[..|ys| - 1], accept);
    }
  }

  // ---------------------------------------------------------------------------
  // Names bound by headers and imports
  // ---------------------------------------------------------------------------

  function OptionList(o: Option<string>): seq<string>
  {
    if o.Some? then [o.value] else []
  }

  /** Positional-only, positional, `*vararg`, keyword-only, `**kwarg`, in that order. */
  function ParamNames(p: Params): seq<string>
  {
    p.posonly + p.args + OptionList(p.vararg) + p.kwonly + OptionList(p.kwarg)
  }

  /** `s.split(".")[0]`: the part of a dotted name before its first dot. */
  function FirstSegment(s: string): (r: string)
    ensures r <= s
    ensures '.' !in r
    ensures r == s || s[|r|] == '.'
  {
    if s == [] || s[0] == '.' then [] else [s[0]] + FirstSegment(s[1..])
  }

  /** The name an import binds: the alias when one is given (and non-empty), otherwise the
      first segment of the dotted module name. */
  function ImportedName(a: Alias): (r: string)
    ensures a.asname.Some? && a.asname.value != "" ==> r == a.asname.value
    ensures !(a.asname.Some? && a.asname.value != "") ==> r <= a.name && '.' !in r && (r == a.name || a.name[|r|] == '.')
  {
    if a.asname.Some? && a.asname.value != "" then a.asname.value else FirstSegment(a.name)
  }

  function ImportedNames(aliases: seq<Alias>): seq<string>
  {
    if aliases == [] then [] else ImportedNames(aliases[..|aliases| - 1]) + [ImportedName(aliases[|aliases| - 1])]
  }

  /** Each name paired with the same line. */
  function AtLine(names: seq<string>, line: int): (r: seq<(string, int)>)
    ensures |r| == |names|
    ensures forall k :: 0 <= k < |names| ==> r[k] == (names[k], line)
  {
    if names == [] then [] else AtLine(names[..|names| - 1], line) + [(names[|names| - 1], line)]
  }
}
