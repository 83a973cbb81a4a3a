/** The "loop until nothing changes" closures of the boundary guard (check_architecture.py):
    tainted names, read aliases and resolved path constants.

    The regular expressions that find the assignments are inputs here: an assignment carries the
    assigned name, whether its expression contains an argv seed text, and the names that occur in
    it as whole words. */
module Closures {
  import opened Wrappers

  datatype Assignment = Assignment(name: string, seeded: bool, mentions: set<string>)

  /** Whether one assignment makes its name tainted, given the names tainted so far. */
  predicate Taints(a: Assignment, tainted: set<string>, rust: bool) {
    !(rust && a.name == "_") && (a.seeded || a.mentions * tainted != {})
  }

  ghost predicate Closed(tainted: set<string>, assignments: seq<Assignment>, rust: bool) {
    forall i :: 0 <= i < |assignments| && Taints(assignments[i], tainted, rust) ==> assignments[i].name in tainted
  }

  /** `least` holds the seeds, is closed under the assignment rule, and lies inside every other
      such set. */
  ghost predicate LeastClosed(least: set<string>, seeds: set<string>, assignments: seq<Assignment>, rust: bool) {
    && seeds <= least
    && Closed(least, assignments, rust)
    && forall other: set<string> :: seeds <= other && Closed(other, assignments, rust) ==> least <= other
  }

  function Names(assignments: seq<Assignment>): set<string> {
    set i | 0 <= i < |assignments| :: assignments[i].name
  }

  /** `_tainted_names`.  `passes` counts the rounds over all assignments: every round but the last
      taints a new assigned name. */
  method TaintedNames(seeds: set<string>, assignments: seq<Assignment>, rust: bool)
    returns (tainted: set<string>, ghost passes: nat)
    ensures LeastClosed(tainted, seeds, assignments, rust)
    ensures tainted <= seeds + Names(assignments)
    ensures 1 <= passes <= |Names(assignments) - seeds| + 1
  {
    tainted, passes := seeds, 0;
    var changed := true;
    while changed
      invariant seeds <= tainted <= seeds + Names(assignments)
      invariant forall other: set<string> :: seeds <= other && Closed(other, assignments, rust) ==> tainted <= other
      invariant !changed ==> Closed(tainted, assignments, rust)
      invariant passes + |Names(assignments) - tainted| <= |Names(assignments) - seeds| + (if changed then 0 else 1)
      invariant !changed ==> passes >= 1
      decreases |Names(assignments) - tainted|, changed
    {
      changed := false;
      passes := passes + 1;
      ghost var before := tainted;
      for index := 0 to |assignments|
        invariant before <= tainted <= seeds + Names(assignments)
        invariant changed <==> before != tainted
        invariant forall other: set<string> :: seeds <= other && Closed(other, assignments, rust) ==> tainted <= other
        invariant !changed ==>
                    forall i :: 0 <= i < index && Taints(assignments[i], tainted, rust) ==> assignments[i].name in tainted
      {
        var assignment := assignments[index];
        if rust && assignment.name == "_" {
          continue;
        }
        if assignment.name !in tainted && (assignment.seeded || assignment.mentions * tainted != {}) {
          forall other: set<string> | seeds <= other && Closed(other, assignments, rust)
            ensures assignment.name in other
          {
            assert tainted <= other;
            assert Taints(assignments[index], other, rust) by {
              if !assignment.seeded {
                var name :| name in assignment.mentions * tainted;
                assert name in assignment.mentions * other;
              }
            }
          }
          assert assignment.name in Names(assignments);
          tainted := tainted + {assignment.name};
          changed := true;
        }
      }
      Shrinks(Names(assignments), before, tainted);
    }
  }

  lemma {:induction false} Shrinks(all: set<string>, before: set<string>, after: set<string>)
    requires before <= after
    ensures |all - after| <= |all - before|
    ensures after != before && after - before <= all ==> |all - after| < |all - before|
  {
    var gone := (all - before) - (all - after);
    assert all - before == (all - after) + gone;
    if after != before && after - before <= all {
      assert after - before != {} by { assert before + (after - before) == after; }
      var x :| x in after - before;
      assert x in gone;
    }
  }

  /** The result does not depend on the order or the repetition of the assignments: any two runs
      over the same set of assignments taint the same names. */
  lemma {:induction false} TaintOrderIndependent(seeds: set<string>, one: seq<Assignment>, two: seq<Assignment>,
                                                 rust: bool,
                                                 a: set<string>, b: set<string>)
    requires forall x :: x in one <==> x in two
    requires LeastClosed(a, seeds, one, rust) && LeastClosed(b, seeds, two, rust)
    ensures a == b
  {
    SameAssignments(a, one, two, rust);
    SameAssignments(b, two, one, rust);
  }

  lemma {:induction false} SameAssignments(tainted: set<string>, one: seq<Assignment>, two: seq<Assignment>, rust: bool)
    requires forall x :: x in two ==> x in one
    requires Closed(tainted, one, rust)
    ensures Closed(tainted, two, rust)
  {
    forall i | 0 <= i < |two| && Taints(two[i], tainted, rust) ensures two[i].name in tainted {
      assert two[i] in one;
    }
  }

  /** `name` is reached from the seeds by a chain of at most `steps` assignments. */
  ghost predicate Derived(name: string, seeds: set<string>, assignments: seq<Assignment>, rust: bool, steps: nat)
    decreases steps
  {
    name in seeds ||
    (steps > 0 &&
     (exists i :: 0 <= i < |assignments| && assignments[i].name == name && DerivedBy(assignments[i], seeds, assignments, rust, steps)))
  }

  ghost predicate DerivedBy(a: Assignment, seeds: set<string>, assignments: seq<Assignment>, rust: bool, steps: nat)
    requires steps > 0
    decreases steps, 0
  {
    !(rust && a.name == "_") &&
    (a.seeded || exists m :: m in a.mentions && Derived(m, seeds, assignments, rust, steps - 1))
  }

  lemma {:induction false} DerivedIsTainted(name: string, seeds: set<string>, assignments: seq<Assignment>,
                                            rust: bool, steps: nat, tainted: set<string>)
    requires Derived(name, seeds, assignments, rust, steps)
    requires seeds <= tainted && Closed(tainted, assignments, rust)
    ensures name in tainted
    decreases steps
  {
    if name !in seeds {
      var i :| 0 <= i < |assignments| && assignments[i].name == name && DerivedBy(assignments[i], seeds, assignments, rust, steps);
      if !assignments[i].seeded {
        var m :| m in assignments[i].mentions && Derived(m, seeds, assignments, rust, steps - 1);
        DerivedIsTainted(m, seeds, assignments, rust, steps - 1, tainted);
        assert m in assignments[i].mentions * tainted;
      }
      assert Taints(assignments[i], tainted, rust);
    }
  }

  lemma {:induction false} TaintedIsDerived(name: string, seeds: set<string>, assignments: seq<Assignment>,
                                            rust: bool, tainted: set<string>)
    requires LeastClosed(tainted, seeds, assignments, rust) && name in tainted
    ensures exists steps: nat :: Derived(name, seeds, assignments, rust, steps)
  {
    var derived := set n | n in tainted && exists steps: nat :: Derived(n, seeds, assignments, rust, steps);
    assert derived <= tainted;
    forall i | 0 <= i < |assignments| && Taints(assignments[i], derived, rust) ensures assignments[i].name in derived {
      var a := assignments[i];
      if a.seeded {
        assert DerivedBy(a, seeds, assignments, rust, 1);
        assert Derived(a.name, seeds, assignments, rust, 1);
      } else {
        var m :| m in a.mentions * derived;
        var k: nat :| Derived(m, seeds, assignments, rust, k);
        assert DerivedBy(a, seeds, assignments, rust, k + 1);
        assert Derived(a.name, seeds, assignments, rust, k + 1);
        assert m in a.mentions * tainted;
      }
      assert Taints(a, tainted, rust);
    }
    forall n | n in seeds ensures n in derived { assert Derived(n, seeds, assignments, rust, 0); }
    assert tainted <= derived;
  }

  /** The taint closure is exactly derivability from the seeds by chains of assignments. */
  lemma {:induction false} TaintIsDerivability(name: string, seeds: set<string>, assignments: seq<Assignment>,
                                               rust: bool, tainted: set<string>)
    requires LeastClosed(tainted, seeds, assignments, rust)
    ensures name in tainted <==> exists steps: nat :: Derived(name, seeds, assignments, rust, steps)
  {
    if name in tainted { TaintedIsDerived(name, seeds, assignments, rust, tainted); }
    if exists steps: nat :: Derived(name, seeds, assignments, rust, steps) {
      var steps: nat :| Derived(name, seeds, assignments, rust, steps);
      DerivedIsTainted(name, seeds, assignments, rust, steps, tainted);
    }
  }

  // ---------------------------------------------------------------- read aliases

  /** A plain `const alias = original;` binding. */
  datatype Binding = Binding(alias: string, original: string)

  /** A binding is an assignment whose expression mentions one name and no argv text. */
  function AsAssignments(bindings: seq<Binding>): (r: seq<Assignment>)
    ensures |r| == |bindings|
    ensures forall i :: 0 <= i < |r| ==> r[i] == Assignment(bindings[i].alias, false, {bindings[i].original})
  {
    seq(|bindings|, i requires 0 <= i < |bindings| => Assignment(bindings[i].alias, false, {bindings[i].original}))
  }

  /** The closing loop of `_read_aliases` for TypeScript. */
  method ReadAliases(imported: set<string>, bindings: seq<Binding>) returns (aliases: set<string>)
    ensures LeastClosed(aliases, imported, AsAssignments(bindings), false)
  {
    ghost var rules := AsAssignments(bindings);
    aliases := imported;
    var changed := true;
    while changed
      invariant imported <= aliases <= imported + Names(rules)
      invariant forall other: set<string> :: imported <= other && Closed(other, rules, false) ==> aliases <= other
      invariant !changed ==> Closed(aliases, rules, false)
      decreases |Names(rules) - aliases|, changed
    {
      changed := false;
      ghost var before := aliases;
      for index := 0 to |bindings|
        invariant before <= aliases <= imported + Names(rules)
        invariant changed <==> before != aliases
        invariant forall other: set<string> :: imported <= other && Closed(other, rules, false) ==> aliases <= other
        invariant !changed ==> forall i :: 0 <= i < index && Taints(rules[i], aliases, false) ==> rules[i].name in aliases
      {
        var binding := bindings[index];
        if binding.original in aliases && binding.alias !in aliases {
          forall other: set<string> | imported <= other && Closed(other, rules, false) ensures binding.alias in other {
            assert aliases <= other;
            assert binding.original in rules[index].mentions * other;
            assert Taints(rules[index], other, false);
          }
          assert rules[index].name in Names(rules);
          aliases := aliases + {binding.alias};
          changed := true;
        }
      }
      Shrinks(Names(rules), before, aliases);
    }
  }

  // ---------------------------------------------------------------- resolved paths

  /** First argument of a `resolve(...)` constant: the module directory or another name. */
  datatype Base = ImportMetaDir | Named(name: string)

  /** `const name = resolve(base, literals...)`; `literals` is missing when some further argument
      is not a string literal. */
  datatype PathConstant = PathConstant(name: string, base: Base, literals: Option<seq<string>>)

  /** The names a constant needs before it can be evaluated, as a rule over names. */
  predicate Resolvable(c: PathConstant, known: set<string>) {
    c.literals.Some? && (c.base.ImportMetaDir? || c.base.name in known)
  }

  ghost predicate ResolutionClosed(known: set<string>, constants: seq<PathConstant>) {
    forall i :: 0 <= i < |constants| && Resolvable(constants[i], known) ==> constants[i].name in known
  }

  function PathNames(constants: seq<PathConstant>): set<string> {
    set i | 0 <= i < |constants| :: constants[i].name
  }

  lemma {:induction false} PathNamesBound(constants: seq<PathConstant>)
    ensures |PathNames(constants)| <= |constants|
  {
    if constants != [] {
      var n := |constants| - 1;
      PathNamesBound(constants[..n]);
      assert PathNames(constants) == PathNames(constants[..n]) + {constants[n].name};
    }
  }

  function JoinAll<Path>(target: Path, items: seq<string>, join: (Path, string) -> Path): Path
    decreases |items|
  {
    if items == [] then target else JoinAll(join(target, items[0]), items[1..], join)
  }

  /** No further argument leaves the base, and each further one is joined to what stands before it. */
  lemma {:induction false} JoinAllMeans<Path>(target: Path, items: seq<string>, last: string, join: (Path, string) -> Path)
    ensures JoinAll(target, [], join) == target
    ensures JoinAll(target, items + [last], join) == join(JoinAll(target, items, join), last)
    decreases |items|
  {
    if items == [] {
      assert [] + [last] == [last] && [last][1..] == [];
    } else {
      assert (items + [last])[1..] == items[1..] + [last];
      JoinAllMeans(join(target, items[0]), items[1..], last, join);
    }
  }

  /** Every name but `__dirname` holds the path its constant computes from the value of its base. */
  ghost predicate Justified<Path>(values: map<string, Path>, dir: Path, constants: seq<PathConstant>,
                                  join: (Path, string) -> Path) {
    "__dirname" in values && values["__dirname"] == dir &&
    forall n :: n in values && n != "__dirname" ==> JustifiedAt(values, n, dir, constants, join)
  }

  ghost predicate JustifiedAt<Path>(values: map<string, Path>, n: string, dir: Path, constants: seq<PathConstant>,
                                    join: (Path, string) -> Path)
    requires n in values
  {
    exists i :: 0 <= i < |constants| && constants[i].name == n && Resolvable(constants[i], values.Keys) &&
      values[n] == JoinAll(if constants[i].base.ImportMetaDir? then dir else values[constants[i].base.name],
                           constants[i].literals.value, join)
  }

  lemma {:induction false} JustifiedStays<Path>(values: map<string, Path>, n: string, path: Path, i: nat,
                                                dir: Path, constants: seq<PathConstant>, join: (Path, string) -> Path)
    requires Justified(values, dir, constants, join) && n !in values
    requires i < |constants| && constants[i].name == n && Resolvable(constants[i], values.Keys)
    requires path == JoinAll(if constants[i].base.ImportMetaDir? then dir else values[constants[i].base.name],
                             constants[i].literals.value, join)
    ensures Justified(values[n := path], dir, constants, join)
  {
    var after := values[n := path];
    forall m | m in after && m != "__dirname" ensures JustifiedAt(after, m, dir, constants, join) {
      if m == n {
        assert Resolvable(constants[i], after.Keys);
      } else {
        assert JustifiedAt(values, m, dir, constants, join);
      }
    }
  }

  /** What every round keeps: values are justified, nothing is resolved without need, and the
      violations are the names whose path leaves the allowlist. */
  ghost predicate Sound<Path>(values: map<string, Path>, violations: seq<string>, dir: Path,
                              constants: seq<PathConstant>,
                              join: (Path, string) -> Path, allowed: Path -> bool) {
    && "__dirname" in values && values.Keys <= {"__dirname"} + PathNames(constants)
    && Justified(values, dir, constants, join)
    && (forall other: set<string> :: "__dirname" in other && ResolutionClosed(other, constants) ==> values.Keys <= other)
    && (forall n :: n in violations <==> n in values && n != "__dirname" && !allowed(values[n]))
  }

  lemma {:induction false} SoundStep<Path>(values: map<string, Path>, violations: seq<string>, index: nat, path: Path,
                                           dir: Path, constants: seq<PathConstant>, join: (Path, string) -> Path, allowed: Path -> bool)
    requires Sound(values, violations, dir, constants, join, allowed) && index < |constants|
    requires constants[index].name !in values && Resolvable(constants[index], values.Keys)
    requires path == JoinAll(if constants[index].base.ImportMetaDir? then dir else values[constants[index].base.name],
                             constants[index].literals.value, join)
    ensures Sound(values[constants[index].name := path], violations + (if allowed(path) then [] else [constants[index].name]),
                  dir, constants, join, allowed)
  {
    var name := constants[index].name;
    var after := values[name := path];
    JustifiedStays(values, name, path, index, dir, constants, join);
    assert name in PathNames(constants);
    forall other: set<string> | "__dirname" in other && ResolutionClosed(other, constants) ensures after.Keys <= other {
      assert Resolvable(constants[index], other);
    }
  }

  /** `_check_ts_resolved_paths`: at most one round more than there are constants, yet the loop
      always ends because a round changed nothing, with every resolvable constant resolved and
      nothing resolved without need.  `violations` lists the names whose path leaves the allowlist. */
  method ResolvedPaths<Path>(dir: Path, constants: seq<PathConstant>, join: (Path, string) -> Path,
                             allowed: Path -> bool)
    returns (values: map<string, Path>, violations: seq<string>)
    ensures ResolutionClosed(values.Keys, constants)
    ensures forall other: set<string> :: "__dirname" in other && ResolutionClosed(other, constants) ==> values.Keys <= other
    ensures Justified(values, dir, constants, join)
    ensures forall n :: n in violations <==> n in values && n != "__dirname" && !allowed(values[n])
  {
    values, violations := map["__dirname" := dir], [];
    PathNamesBound(constants);
    ghost var all := PathNames(constants);
    ghost var settled := false;
    for pass := 0 to |constants| + 1
      invariant Sound(values, violations, dir, constants, join, allowed)
      invariant pass + |all - values.Keys| <= |all|
    {
      ghost var before := values.Keys;
      var changed;
      values, violations, changed := ResolveRound(dir, constants, join, allowed, values, violations);
      Shrinks(all, before, values.Keys);
      if !changed {
        settled := true;
        break;
      }
    }
    assert settled;
  }

  /** One round over all constants. */
  method ResolveRound<Path>(dir: Path, constants: seq<PathConstant>, join: (Path, string) -> Path,
                            allowed: Path -> bool,
                            values0: map<string, Path>, violations0: seq<string>)
    returns (values: map<string, Path>, violations: seq<string>, changed: bool)
    requires Sound(values0, violations0, dir, constants, join, allowed)
    ensures Sound(values, violations, dir, constants, join, allowed)
    ensures values0.Keys <= values.Keys && (changed <==> values0.Keys != values.Keys)
    ensures !changed ==> ResolutionClosed(values.Keys, constants)
  {
    hide Sound;
    values, violations, changed := values0, violations0, false;
    for index := 0 to |constants|
      invariant Sound(values, violations, dir, constants, join, allowed)
      invariant values0.Keys <= values.Keys && (changed <==> values0.Keys != values.Keys)
      invariant !changed ==>
                  forall i :: 0 <= i < index && Resolvable(constants[i], values.Keys) ==> constants[i].name in values.Keys
    {
      var constant := constants[index];
      if constant.name in values {
        continue;
      }
      if constant.base.Named? && constant.base.name !in values {
        continue;
      }
      if constant.literals.None? {
        continue;
      }
      var target := if constant.base.ImportMetaDir? then dir else values[constant.base.name];
      var path := JoinLiterals(target, constant.literals.value, join);
      SoundStep(values, violations, index, path, dir, constants, join, allowed);
      values := values[constant.name := path];
      changed := true;
      if !allowed(path) {
        violations := violations + [constant.name];
      } else {
        assert violations + [] == violations;
      }
    }
  }

  method JoinLiterals<Path>(base: Path, items: seq<string>, join: (Path, string) -> Path) returns (target: Path)
    ensures target == JoinAll(base, items, join)
  {
    target := base;
    for i := 0 to |items|
      invariant JoinAll(target, items[i..], join) == JoinAll(base, items, join)
    {
      assert items[i..][1..] == items[i + 1..];
      target := join(target, items[i]);
    }
  }
}
