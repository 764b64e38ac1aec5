/** Scopes: a region of the source in which names are defined, with its nested scopes. */
module Scopes {
  import opened Options
  import opened Definitions

  datatype ScopeKind = ModuleScope | FunctionScope | ClassScope

  /** The value of a scope and everything nested in it. */
  datatype ScopeTree = ScopeTree(
    kind: ScopeKind,
    name: string,
    startLine: int,
    endLine: int,
    children: seq<ScopeTree>,
    definitions: DefinitionMap)

  predicate Contains(s: ScopeTree, line: int)
  {
    s.startLine <= line <= s.endLine
  }

  /** A scope as the analyser keeps it: an object whose child list and definition map grow
      while the syntax tree is walked. */
  class Scope {
    const kind: ScopeKind
    const name: string
    const startLine: int
    const endLine: int
    var children: seq<Scope>
    var definitions: DefinitionMap
    /** This scope and every scope nested in it. */
    ghost var Repr: set<object>

    ghost predicate Valid()
      reads this, Repr
      decreases Repr
    {
      && this in Repr
      && forall c :: c in children ==>
           && c in Repr
           && c.Repr <= Repr
           && this !in c.Repr
           && c.Valid()
    }

    constructor (kind: ScopeKind, name: string, startLine: int, endLine: int)
      ensures Valid() && fresh(Repr) && Repr == {this}
      ensures this.kind == kind && this.name == name
      ensures this.startLine == startLine && this.endLine == endLine
      ensures children == [] && definitions == map[]
    {
      this.kind := kind;
      this.name := name;
      this.startLine := startLine;
      this.endLine := endLine;
      children := [];
      definitions := map[];
      Repr := {this};
    }

    /** The value this scope stands for. */
    ghost function Abs(): ScopeTree
      reads this, Repr
      requires Valid()
      decreases Repr, 0
    {
      ScopeTree(kind, name, startLine, endLine, Trees(children, Repr - {this}), definitions)
    }

    /** `add_definition`: appends one undeleted definition to the name's list, creating the
        list when the name is new; no other name's list changes. */
    method AddDefinition(name: string, line: int)
      modifies this`definitions
      ensures name in definitions
      ensures definitions[name] == old(DefinitionsOf(definitions, name)) + [Definition(name, line, None)]
      ensures forall n :: n != name ==> (n in definitions <==> n in old(definitions))
      ensures forall n :: n != name && n in definitions ==> definitions[n] == old(definitions[n])
      ensures definitions == Define(old(definitions), name, line)
    {
      var defs := if name in definitions then definitions[name] else [];
      definitions := definitions[name := defs + [Definition(name, line, None)]];
    }

    /** `add_deletion`: marks the newest definition of the name as deleted from `line`;
        nothing happens when the name has no definitions. */
    method AddDeletion(name: string, line: int)
      modifies this`definitions
      ensures old(name !in definitions || definitions[name] == []) ==> definitions == old(definitions)
      ensures old(name in definitions && definitions[name] != []) ==>
        && name in definitions
        && |definitions[name]| == old(|definitions[name]|)
        && definitions[name][..|definitions[name]| - 1] == old(definitions[name][..|definitions[name]| - 1])
        && definitions[name][|definitions[name]| - 1] == old(definitions[name][|definitions[name]| - 1]).(deletedFrom := Some(line))
      ensures definitions.Keys == old(definitions.Keys)
      ensures forall n :: n != name && n in definitions ==> definitions[n] == old(definitions[n])
      ensures definitions == MarkDeletion(old(definitions), name, line)
    {
      if name !in definitions || definitions[name] == [] {
        return;
      }
      var defs := definitions[name];
      var last := defs[|defs| - 1];
      definitions := definitions[name := defs[..|defs| - 1] + [last.(deletedFrom := Some(line))]];
    }

    /** `available_names_at`: every name whose newest definition not after `line` has not
        been deleted by then. */
    method AvailableNamesAt(line: int) returns (names: set<string>)
      ensures names == AvailableNames(definitions, line)
    {
      names := {};
      var todo := definitions.Keys;
      while todo != {}
        invariant todo <= definitions.Keys
        invariant names == set n | n in definitions && n !in todo && HoldsAt(definitions[n], line)
        decreases todo
      {
        var name :| name in todo;
        var defs := definitions[name];
        var latest: Option<Definition> := None;
        var i := 0;
        while i < |defs|
          invariant 0 <= i <= |defs|
          invariant latest == Latest(defs[..i], line)
        {
          assert defs[..i + 1][..i] == defs[..i];
          var d := defs[i];
          if d.line <= line && (latest.None? || d.line > latest.value.line) {
            latest := Some(d);
          }
          i := i + 1;
        }
        assert defs[..i] == defs;
        todo := todo - {name};
        if latest.None? {
          continue;
        }
        if latest.value.deletedFrom.Some? && latest.value.deletedFrom.value <= line {
          continue;
        }
        names := names + {name};
      }
    }
  }

  /** Changing nothing but a scope's own definition map keeps it valid and changes only the
      definitions of its value. */
  twostate lemma DefinitionsOnly(s: Scope)
    requires old(s.Valid())
    requires unchanged(s`children, s`Repr)
    requires unchanged(old(s.Repr) - {s})
    ensures s.Valid() && s.Abs() == old(s.Abs()).(definitions := s.definitions)
  {
    assert forall c :: c in s.children ==> c.Valid() && c.Abs() == old(c.Abs()) by {
      forall c | c in s.children ensures c.Valid() && c.Abs() == old(c.Abs()) {
        assert old(c.Valid());
      }
    }
  }

  /** The values of a list of valid scopes, all of whose objects lie within `bound`. */
  ghost function Trees(cs: seq<Scope>, bound: set<object>): (r: seq<ScopeTree>)
    reads cs, bound
    requires forall c :: c in cs ==> c.Repr <= bound && c.Valid()
    ensures |r| == |cs|
    ensures forall k :: 0 <= k < |cs| ==> r[k] == cs[k].Abs()
    decreases bound, |cs|
  {
    if cs == [] then [] else Trees(cs[..|cs| - 1], bound) + [cs[|cs| - 1].Abs()]
  }
}
