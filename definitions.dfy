/** The per-name history of definitions that a scope keeps, and the question the analyser
    asks of it: which names hold on a given line. */
module Definitions {
  import opened Options

  /** One binding of `name` made on `line`. `deletedFrom` is the first line on which a `del`
      statement has removed it; it stays `None` while no deletion has reached it. */
  datatype Definition = Definition(name: string, line: int, deletedFrom: Option<int>)

  /** Name to its definitions, oldest first. */
  type DefinitionMap = map<string, seq<Definition>>

  function DefinitionsOf(defs: DefinitionMap, name: string): seq<Definition>
  {
    if name in defs then defs[name] else []
  }

  /** The effect of `add_definition`: one new, undeleted definition at the end of the list. */
  function Define(defs: DefinitionMap, name: string, line: int): DefinitionMap
  {
    defs[name := DefinitionsOf(defs, name) + [Definition(name, line, None)]]
  }

  /** The list with its newest entry marked as deleted from `line`. */
  function MarkLastDeleted(ds: seq<Definition>, line: int): seq<Definition>
    requires ds != []
  {
    ds[..|ds| - 1] + [ds[|ds| - 1].(deletedFrom := Some(line))]
  }

  /** The effect of `add_deletion`: no change for a name without definitions. */
  function MarkDeletion(defs: DefinitionMap, name: string, line: int): DefinitionMap
  {
    if name !in defs || defs[name] == [] then defs
    else defs[name := MarkLastDeleted(defs[name], line)]
  }

  /** `Define` once per (name, line) pair, in order. */
  function DefineNames(defs: DefinitionMap, bindings: seq<(string, int)>): DefinitionMap
  {
    if bindings == [] then defs
    else
      var last := bindings[|bindings| - 1];
      Define(DefineNames(defs, bindings[..|bindings| - 1]), last.0, last.1)
  }

  /** `MarkDeletion` at `line` once per pair, in order; the pairs' own lines play no part. */
  function DeleteNames(defs: DefinitionMap, bindings: seq<(string, int)>, line: int): DefinitionMap
  {
    if bindings == [] then defs
    else MarkDeletion(DeleteNames(defs, bindings[..|bindings| - 1], line), bindings[|bindings| - 1].0, line)
  }

  // ---------------------------------------------------------------------------
  // The query `available_names_at`
  // ---------------------------------------------------------------------------

  /** One step of the inner loop: a definition not after `line` replaces the current
      candidate only when its line is strictly greater. */
  function Newer(latest: Option<Definition>, d: Definition, line: int): Option<Definition>
  {
    if d.line <= line && (latest.None? || d.line > latest.value.line) then Some(d) else latest
  }

  /** The candidate after scanning all of `ds` in list order. */
  function Latest(ds: seq<Definition>, line: int): Option<Definition>
  {
    if ds == [] then None else Newer(Latest(ds[..|ds| - 1], line), ds[|ds| - 1], line)
  }

  predicate NotDeletedBy(d: Definition, line: int)
  {
    d.deletedFrom.None? || d.deletedFrom.value > line
  }

  /** The name of this history is available on `line`. */
  predicate HoldsAt(ds: seq<Definition>, line: int)
  {
    Latest(ds, line).Some? && NotDeletedBy(Latest(ds, line).value, line)
  }

  function AvailableNames(defs: DefinitionMap, line: int): set<string>
  {
    set name | name in defs && HoldsAt(defs[name], line)
  }

  /** Which definition the query consults, stated without the loop: the one whose line is
      the greatest not after `line`, and the earliest in the list among equal lines. */
  ghost predicate Selected(ds: seq<Definition>, line: int, k: int)
  {
    && 0 <= k < |ds|
    && ds[k].line <= line
    && (forall j :: 0 <= j < |ds| && ds[j].line <= line ==> ds[j].line <= ds[k].line)
    && (forall j :: 0 <= j < k && ds[j].line <= line ==> ds[j].line < ds[k].line)
  }

  lemma SelectedUnique(ds: seq<Definition>, line: int, k1: int, k2: int)
    requires Selected(ds, line, k1) && Selected(ds, line, k2)
    ensures k1 == k2
  {
  }

  /** The loop finds nothing exactly when every definition comes after `line`, and
      otherwise finds the selected definition. */
  lemma {:induction false} LatestIsSelected(ds: seq<Definition>, line: int)
    ensures Latest(ds, line).None? <==> forall j :: 0 <= j < |ds| ==> ds[j].line > line
    ensures Latest(ds, line).Some? ==> exists k :: Selected(ds, line, k) && Latest(ds, line).value == ds[k]
  {
    if ds != [] {
      var p := ds[..|ds| - 1];
      var d := ds[|ds| - 1];
      LatestIsSelected(p, line);
      assert forall j :: 0 <= j < |p| ==> p[j] == ds[j];
      if Latest(p, line).Some? {
        var k :| Selected(p, line, k) && Latest(p, line).value == p[k];
        if d.line <= line && d.line > p[k].line {
          assert Selected(ds, line, |ds| - 1);
        } else {
          assert Selected(ds, line, k);
        }
      } else if d.line <= line {
        assert Selected(ds, line, |ds| - 1);
      }
    }
  }

  /** A name is available exactly when it has a selected definition that no deletion has
      reached by `line`. */
  lemma AvailableNamesIff(defs: DefinitionMap, line: int, name: string)
    ensures name in AvailableNames(defs, line) <==>
      name in defs && exists k :: Selected(defs[name], line, k) && NotDeletedBy(defs[name][k], line)
  {
    if name in defs {
      var ds := defs[name];
      LatestIsSelected(ds, line);
      if exists k :: Selected(ds, line, k) && NotDeletedBy(ds[k], line) {
        var k :| Selected(ds, line, k) && NotDeletedBy(ds[k], line);
        assert Latest(ds, line).Some?;
        var k' :| Selected(ds, line, k') && Latest(ds, line).value == ds[k'];
        SelectedUnique(ds, line, k, k');
      }
    }
  }

  /** A name defined only after `line` is never reported. */
  lemma AvailableOnlyAfterDefinition(defs: DefinitionMap, line: int, name: string)
    requires name in AvailableNames(defs, line)
    ensures exists j :: 0 <= j < |defs[name]| && defs[name][j].line <= line
  {
    LatestIsSelected(defs[name], line);
  }

  /** A definition later than all earlier ones makes the name available from its own line,
      whatever deletions the earlier ones carry. */
  lemma RedefinitionRevives(defs: DefinitionMap, name: string, at: int, line: int)
    requires forall d :: d in DefinitionsOf(defs, name) ==> d.line < at
    requires at <= line
    ensures name in AvailableNames(Define(defs, name, at), line)
  {
    var old_ := DefinitionsOf(defs, name);
    var ds := Define(defs, name, at)[name];
    assert ds[..|ds| - 1] == old_;
    LatestIsSelected(old_, line);
    if Latest(old_, line).Some? {
      var k :| Selected(old_, line, k) && Latest(old_, line).value == old_[k];
      assert old_[k] in old_;
    }
  }

  /** Deleting the newest definition hides the name from the deletion's line on, provided
      that definition is the one the query selects. */
  lemma DeletionHides(defs: DefinitionMap, name: string, at: int, line: int)
    requires name in defs && defs[name] != []
    requires defs[name][|defs[name]| - 1].line <= line
    requires forall j :: 0 <= j < |defs[name]| - 1 ==> defs[name][j].line < defs[name][|defs[name]| - 1].line
    requires at <= line
    ensures name !in AvailableNames(MarkDeletion(defs, name, at), line)
  {
    var old_ := defs[name];
    var n := |old_|;
    var p := old_[..n - 1];
    var ds := MarkDeletion(defs, name, at)[name];
    assert ds == p + [old_[n - 1].(deletedFrom := Some(at))];
    assert ds[..n - 1] == p;
    LatestIsSelected(p, line);
    if Latest(p, line).Some? {
      var k :| Selected(p, line, k) && Latest(p, line).value == p[k];
      assert p[k].line < old_[n - 1].line;
    }
    assert Latest(ds, line) == Some(ds[n - 1]);
  }

  // ---------------------------------------------------------------------------
  // Growth: what recording definitions and deletions never undo
  // ---------------------------------------------------------------------------

  predicate SameBinding(d: Definition, e: Definition)
  {
    d.name == e.name && d.line == e.line
  }

  /** `b` arose from `a` by appending definitions and setting deletion marks: every name of
      `a` is still there and each of its entries keeps its place, name and line. */
  ghost predicate Extends(a: DefinitionMap, b: DefinitionMap)
  {
    forall name :: name in a ==>
      && name in b
      && |a[name]| <= |b[name]|
      && forall k :: 0 <= k < |a[name]| ==> SameBinding(a[name][k], b[name][k])
  }

  lemma ExtendsTransitive(a: DefinitionMap, b: DefinitionMap, c: DefinitionMap)
    requires Extends(a, b) && Extends(b, c)
    ensures Extends(a, c)
  {
  }

  lemma DefineExtends(defs: DefinitionMap, name: string, line: int)
    ensures Extends(defs, Define(defs, name, line))
  {
  }

  lemma {:induction false} DefineNamesAppend(defs: DefinitionMap, xs: seq<(string, int)>, ys: seq<(string, int)>)
    ensures DefineNames(defs, xs + ys) == DefineNames(DefineNames(defs, xs), ys)
  {
    if ys != [] {
      assert (xs + ys)[..|xs + ys| - 1] == xs + ys[..|ys| - 1];
      DefineNamesAppend(defs, xs, ys[..|ys| - 1]);
    } else {
      assert xs + ys == xs;
    }
  }

  lemma {:induction false} DeleteNamesAppend(defs: DefinitionMap, xs: seq<(string, int)>, ys: seq<(string, int)>, line: int)
    ensures DeleteNames(defs, xs + ys, line) == DeleteNames(DeleteNames(defs, xs, line), ys, line)
  {
    if ys != [] {
      assert (xs + ys)[..|xs + ys| - 1] == xs + ys[..|ys| - 1];
      DeleteNamesAppend(defs, xs, ys[..|ys| - 1], line);
    } else {
      assert xs + ys == xs;
    }
  }

  /** Defining names keeps every existing list as a prefix, and leaves each pair's
      definition, undeleted, in its name's list. */
  lemma {:induction false} DefineNamesRecords(defs: DefinitionMap, bindings: seq<(string, int)>)
    ensures forall name :: name in defs ==> name in DefineNames(defs, bindings) && defs[name] <= DefineNames(defs, bindings)[name]
    ensures forall b :: b in bindings ==> b.0 in DefineNames(defs, bindings) && Definition(b.0, b.1, None) in DefineNames(defs, bindings)[b.0]
  {
    if bindings != [] {
      var p := bindings[..|bindings| - 1];
      DefineNamesRecords(defs, p);
      forall b | b in bindings
        ensures b.0 in DefineNames(defs, bindings) && Definition(b.0, b.1, None) in DefineNames(defs, bindings)[b.0]
      {
        if b != bindings[|bindings| - 1] {
          assert b in p;
        }
      }
    }
  }

  lemma DefineNamesExtends(defs: DefinitionMap, bindings: seq<(string, int)>)
    ensures Extends(defs, DefineNames(defs, bindings))
  {
    DefineNamesRecords(defs, bindings);
  }

  function NamesOf(bindings: seq<(string, int)>): set<string>
  {
    set b | b in bindings :: b.0
  }

  /** Deleting names marks the newest definition of each listed name that has one, once,
      at `line`; every other list is left as it was and no name is added or removed. */
  lemma {:induction false} DeleteNamesMarks(defs: DefinitionMap, bindings: seq<(string, int)>, line: int)
    ensures DeleteNames(defs, bindings, line).Keys == defs.Keys
    ensures forall name :: name in defs ==>
      DeleteNames(defs, bindings, line)[name] ==
        if name in NamesOf(bindings) && defs[name] != [] then MarkLastDeleted(defs[name], line) else defs[name]
  {
    if bindings != [] {
      var p := bindings[..|bindings| - 1];
      var last := bindings[|bindings| - 1];
      DeleteNamesMarks(defs, p, line);
      assert NamesOf(bindings) == NamesOf(p) + {last.0} by {
        assert bindings == p + [last];
      }
      DeleteOneMore(defs, DeleteNames(defs, p, line), NamesOf(p), last.0, line);
    }
  }

  /** The inductive step of `DeleteNamesMarks`: one more deletion at the same line. */
  lemma DeleteOneMore(defs: DefinitionMap, mid: DefinitionMap, names: set<string>, name: string, line: int)
    requires mid.Keys == defs.Keys
    requires forall n :: n in defs ==>
      mid[n] == if n in names && defs[n] != [] then MarkLastDeleted(defs[n], line) else defs[n]
    ensures MarkDeletion(mid, name, line).Keys == defs.Keys
    ensures forall n :: n in defs ==>
      MarkDeletion(mid, name, line)[n] ==
        if n in names + {name} && defs[n] != [] then MarkLastDeleted(defs[n], line) else defs[n]
  {
    if name in defs && defs[name] != [] && name in names {
      MarkLastDeletedTwice(defs[name], line);
    }
  }

  /** Marking the newest entry twice from the same line is marking it once. */
  lemma MarkLastDeletedTwice(ds: seq<Definition>, line: int)
    requires ds != []
    ensures MarkLastDeleted(MarkLastDeleted(ds, line), line) == MarkLastDeleted(ds, line)
  {
    var m := MarkLastDeleted(ds, line);
    assert m[..|m| - 1] == ds[..|ds| - 1];
  }

  lemma DeleteNamesExtends(defs: DefinitionMap, bindings: seq<(string, int)>, line: int)
    ensures Extends(defs, DeleteNames(defs, bindings, line))
  {
    DeleteNamesMarks(defs, bindings, line);
    var r := DeleteNames(defs, bindings, line);
    forall name | name in defs
      ensures name in r && |defs[name]| <= |r[name]|
      ensures forall k :: 0 <= k < |defs[name]| ==> SameBinding(defs[name][k], r[name][k])
    {
      var ds := defs[name];
      if name in NamesOf(bindings) && ds != [] {
        MarkLastDeletedKeeps(ds, line);
      }
    }
  }

  lemma MarkLastDeletedKeeps(ds: seq<Definition>, line: int)
    requires ds != []
    ensures |MarkLastDeleted(ds, line)| == |ds|
    ensures forall k :: 0 <= k < |ds| ==> SameBinding(ds[k], MarkLastDeleted(ds, line)[k])
  {
  }
}
