/** The Bun half of the dependency inventory (dependency_evidence.py): the worklist over the packages
    of bun.lock and the rows made from it.  The lockfile arrives validated: a package is known by its
    name and lists the names it depends on. */
module BunInventory {
  import opened Wrappers
  import opened Ordering
  import opened Reachability
  import opened Sequences
  import opened CargoInventory

  datatype BunPackage = BunPackage(version: string, digest: string, dependencies: seq<string>)

  ghost function NameGraph(packages: map<string, BunPackage>): map<string, set<string>> {
    map name | name in packages :: (set d | d in packages[name].dependencies)
  }

  ghost function Starts(direct: seq<(string, string)>): set<(string, string)> {
    set d | d in direct
  }

  /** Some manifest entry of the scope reaches the package. */
  ghost predicate Needed(packages: map<string, BunPackage>, direct: seq<(string, string)>, name: string,
                         scope: string) {
    Reached(NameGraph(packages), Starts(direct), (name, scope))
  }

  /** Every name reached from the manifest is in the lockfile. */
  ghost predicate Complete(packages: map<string, BunPackage>, direct: seq<(string, string)>) {
    forall state :: Reached(NameGraph(packages), Starts(direct), state) ==> state.0 in packages
  }

  ghost predicate EachNeeded(packages: map<string, BunPackage>, direct: seq<(string, string)>) {
    forall name :: name in packages ==> exists scope :: Needed(packages, direct, name, scope)
  }

  /** The row of a package: its scopes are exactly those some manifest entry reaches it for. */
  ghost predicate RowOf(e: Entry, name: string, packages: map<string, BunPackage>, direct: seq<(string, string)>)
    requires name in packages
  {
    && e.name == name && e.version == packages[name].version && e.source == "npm-registry"
    && e.digest == Some(packages[name].digest)
    && Sorted(e.scopes, Before)
    && forall scope :: scope in e.scopes <==> Needed(packages, direct, name, scope)
  }

  function WorkspaceRow(name: string, version: string): Entry {
    Entry(name, version, "workspace", None, ["workspace"])
  }

  /** The scheduling of the manifest's dependencies. */
  method ScheduleManifest(packages: map<string, BunPackage>, direct: seq<(string, string)>)
    returns (queue: seq<(string, string)>, scheduled: set<(string, string)>)
    ensures Walking(NameGraph(packages), Starts(direct), scheduled, queue, [])
  {
    hide Reached, NameGraph;
    queue, scheduled := [], {};
    for i := 0 to |direct|
      invariant Distinct(queue) && forall state :: state in scheduled <==> state in queue
      invariant forall j :: 0 <= j < i ==> direct[j] in scheduled
      invariant scheduled <= Starts(direct)
    {
      var state := direct[i];
      if state !in scheduled {
        scheduled := scheduled + {state};
        queue := queue + [state];
      }
    }
    forall state | state in scheduled ensures Reached(NameGraph(packages), Starts(direct), state) {
      DirectIsReached(NameGraph(packages), Starts(direct), state);
    }
  }

  /** The inner loop of the worklist. */
  method ExpandName(packages: map<string, BunPackage>, ghost direct: set<(string, string)>,
                    ghost done: seq<(string, string)>,
                    current: (string, string), scheduled0: set<(string, string)>, queue0: seq<(string, string)>)
    returns (scheduled: set<(string, string)>, queue: seq<(string, string)>)
    requires current.0 in packages
    requires Expanding(NameGraph(packages), direct, scheduled0, queue0, done, current, NameGraph(packages)[current.0])
    ensures Expanding(NameGraph(packages), direct, scheduled, queue, done, current, {})
  {
    hide Expanding;
    ghost var graph := NameGraph(packages);
    var names := packages[current.0].dependencies;
    scheduled, queue := scheduled0, queue0;
    ghost var pending := graph[current.0];
    for i := 0 to |names|
      invariant pending == graph[current.0] - (set j | 0 <= j < i :: names[j])
      invariant Expanding(graph, direct, scheduled, queue, done, current, pending)
    {
      var state := (names[i], current.1);
      Schedule(graph, direct, scheduled, queue, done, current, pending, names[i]);
      if state !in scheduled {
        scheduled := scheduled + {state};
        queue := queue + [state];
      }
      pending := pending - {names[i]};
    }
    assert pending == {};
  }

  ghost function AllNames(packages: map<string, BunPackage>, direct: seq<(string, string)>): set<string> {
    (set d | d in direct :: d.0) + (set name, dep | name in packages && dep in packages[name].dependencies :: dep)
  }

  ghost function NameUniverse(packages: map<string, BunPackage>, direct: seq<(string, string)>): set<(string, string)> {
    set name, d | name in AllNames(packages, direct) && d in direct :: (name, d.1)
  }

  lemma {:induction false} NamesAreBounded(packages: map<string, BunPackage>, direct: seq<(string, string)>)
    ensures Bounds(NameGraph(packages), Starts(direct), NameUniverse(packages, direct))
  {
    forall d | d in Starts(direct) ensures d in NameUniverse(packages, direct) {
      assert d == (d.0, d.1) && d.0 in AllNames(packages, direct);
    }
    forall s, to | s in NameUniverse(packages, direct) && s.0 in NameGraph(packages) && to in NameGraph(packages)[s.0]
      ensures (to, s.1) in NameUniverse(packages, direct)
    {
      assert to in AllNames(packages, direct);
    }
  }

  lemma {:induction false} NextName(packages: map<string, BunPackage>, direct: seq<(string, string)>,
                                    scheduled: set<(string, string)>, queue: seq<(string, string)>, done: seq<(string, string)>)
    requires Walking(NameGraph(packages), Starts(direct), scheduled, queue, done) && queue != []
    ensures queue[0] in NameUniverse(packages, direct) && queue[0] !in done
    ensures Complete(packages, direct) ==> queue[0].0 in packages
    ensures NameGraph(packages).Keys == packages.Keys
  {
    hide Reached, Distinct, NameUniverse, Bounds;
    assert queue[0] in queue;
    NamesAreBounded(packages, direct);
    WithinBounds(NameGraph(packages), Starts(direct), NameUniverse(packages, direct), queue[0]);
  }

  lemma {:induction false} WalkIsComplete(packages: map<string, BunPackage>, direct: seq<(string, string)>,
                                          order: seq<(string, string)>)
    requires forall s :: s in order <==> Reached(NameGraph(packages), Starts(direct), s)
    requires forall s :: s in order ==> s.0 in NameGraph(packages)
    ensures Complete(packages, direct)
    ensures forall name, s :: (name, s) in order <==> Needed(packages, direct, name, s)
  {
    hide Reached;
  }

  /** The worklist of `bun_inventory`.  `order` lists the processed states: each reached state once. */
  method WalkNames(packages: map<string, BunPackage>, direct: seq<(string, string)>)
    returns (scopes: Option<map<string, set<string>>>, ghost order: seq<(string, string)>)
    ensures scopes.Some? <==> Complete(packages, direct)
    ensures scopes.Some? ==> scopes.value.Keys == packages.Keys
    ensures scopes.Some? ==> forall name, s :: name in packages ==> (s in scopes.value[name] <==> Needed(packages, direct, name, s))
    ensures scopes.Some? ==> Distinct(order)
    ensures scopes.Some? ==> forall state :: state in order <==> Reached(NameGraph(packages), Starts(direct), state)
  {
    hide Walking, Expanding, Reached, Distinct, Starts, NameUniverse, NameGraph, Complete, Needed;
    ghost var graph, starts := NameGraph(packages), Starts(direct);
    order := [];
    var current: map<string, set<string>> := map name | name in packages :: {};
    var queue, scheduled := ScheduleManifest(packages, direct);
    var seen: set<(string, string)> := {};
    while queue != []
      invariant Walking(graph, starts, scheduled, queue, order)
      invariant forall state :: state in seen <==> state in order
      invariant current.Keys == packages.Keys
      invariant forall name, s :: name in packages ==> (s in current[name] <==> (name, s) in order)
      decreases NameUniverse(packages, direct) - seen
    {
      var state := queue[0];
      NextName(packages, direct, scheduled, queue, order);
      ghost var before := queue;
      queue := queue[1..];
      assert state !in seen;
      if state !in seen {
        seen := seen + {state};
        if state.0 !in packages {
          return None, order;
        }
        Pop(graph, starts, scheduled, before, order);
        current := current[state.0 := current[state.0] + {state.1}];
        scheduled, queue := ExpandName(packages, starts, order, state, scheduled, queue);
        Finish(graph, starts, scheduled, queue, order, state);
        order := order + [state];
      }
    }
    WalkEnds(graph, starts, scheduled, order);
    WalkIsComplete(packages, direct, order);
    scopes := Some(current);
  }

  /** The inventory: one row for the workspace and one for each package of the lockfile. */
  ghost predicate IsBunInventory(out: seq<Entry>, name: string, version: string, packages: map<string, BunPackage>,
                                 direct: seq<(string, string)>) {
    && Sorted(out, EntryBefore) && |out| == |packages| + 1
    && Entry(name, version, "workspace", None, ["workspace"]) in out
    && (forall p :: p in packages ==> exists e :: e in out && RowOf(e, p, packages, direct))
    && (forall e :: e in out ==>
          e == Entry(name, version, "workspace", None, ["workspace"]) || (e.name in packages && RowOf(e, e.name, packages, direct)))
  }

  method BunRows(name: string, version: string, packages: map<string, BunPackage>, direct: seq<(string, string)>,
                 scopes: map<string, set<string>>)
    returns (rows: Option<seq<Entry>>)
    requires scopes.Keys == packages.Keys
    requires forall p, s :: p in packages ==> (s in scopes[p] <==> Needed(packages, direct, p, s))
    ensures rows.Some? <==> EachNeeded(packages, direct)
    ensures rows.Some? ==> |rows.value| == |packages| + 1 && rows.value[0] == WorkspaceRow(name, version)
    ensures rows.Some? ==>
              forall i :: 0 < i < |rows.value| ==> rows.value[i].name in packages && RowOf(rows.value[i], rows.value[i].name, packages, direct)
    ensures rows.Some? ==> forall i, j :: 0 < i < j < |rows.value| ==> rows.value[i].name != rows.value[j].name
    ensures rows.Some? ==> forall p :: p in packages ==> exists i :: 0 < i < |rows.value| && rows.value[i].name == p
  {
    hide Needed, Sorted, RowOf, RowsFor;
    var output := [WorkspaceRow(name, version)];
    var left := packages.Keys;
    NoRows(output, packages.Keys - left, packages, direct);
    while left != {}
      invariant left <= packages.Keys && |output| + |left| == |packages| + 1
      invariant |output| > 0 && output[0] == WorkspaceRow(name, version)
      invariant RowsFor(output, packages.Keys - left, packages, direct)
      invariant forall p :: p in packages.Keys - left ==> scopes[p] != {}
      decreases left
    {
      var p :| p in left;
      if scopes[p] == {} {
        assert forall s :: !Needed(packages, direct, p, s);
        return None;
      }
      var sorted := SortStrings(scopes[p]);
      var row := Entry(p, packages[p].version, "npm-registry", Some(packages[p].digest), sorted);
      RowIs(row, p, packages, direct);
      RowsGrow(output, packages.Keys - left, packages, direct, row);
      assert packages.Keys - (left - {p}) == packages.Keys - left + {p};
      output := output + [row];
      left := left - {p};
    }
    RowsMean(output, packages.Keys - left, packages, direct);
    forall p | p in packages ensures exists s :: Needed(packages, direct, p, s) {
      assert p in packages.Keys - left;
      var s :| s in scopes[p];
    }
    rows := Some(output);
  }

  /** Behind the workspace's row there is exactly one row for each of the names. */
  ghost predicate RowsFor(output: seq<Entry>, names: set<string>, packages: map<string, BunPackage>,
                          direct: seq<(string, string)>) {
    && (forall i :: 0 < i < |output| ==>
          output[i].name in names && output[i].name in packages && RowOf(output[i], output[i].name, packages, direct))
    && (forall i, j :: 0 < i < j < |output| ==> output[i].name != output[j].name)
    && (forall p :: p in names ==> exists i :: 0 < i < |output| && output[i].name == p)
  }

  lemma {:induction false} NoRows(output: seq<Entry>, names: set<string>, packages: map<string, BunPackage>,
                                  direct: seq<(string, string)>)
    requires |output| == 1 && names == {}
    ensures RowsFor(output, names, packages, direct)
  {
  }

  lemma {:induction false} RowsGrow(output: seq<Entry>, names: set<string>, packages: map<string, BunPackage>,
                                    direct: seq<(string, string)>, row: Entry)
    requires RowsFor(output, names, packages, direct) && |output| > 0
    requires row.name !in names && row.name in packages && RowOf(row, row.name, packages, direct)
    ensures RowsFor(output + [row], names + {row.name}, packages, direct)
  {
    hide RowOf;
    var longer := output + [row];
    forall q | q in names + {row.name} ensures exists i :: 0 < i < |longer| && longer[i].name == q {
      if q == row.name {
        assert longer[|output|].name == q;
      } else {
        var i :| 0 < i < |output| && output[i].name == q;
        assert longer[i].name == q;
      }
    }
  }

  lemma {:induction false} RowsMean(output: seq<Entry>, names: set<string>, packages: map<string, BunPackage>,
                                    direct: seq<(string, string)>)
    requires RowsFor(output, names, packages, direct) && names == packages.Keys
    ensures forall i :: 0 < i < |output| ==> output[i].name in packages && RowOf(output[i], output[i].name, packages, direct)
    ensures forall i, j :: 0 < i < j < |output| ==> output[i].name != output[j].name
    ensures forall p :: p in packages ==> exists i :: 0 < i < |output| && output[i].name == p
  {
    hide RowOf;
  }

  lemma {:induction false} RowIs(e: Entry, name: string, packages: map<string, BunPackage>,
                                 direct: seq<(string, string)>)
    requires name in packages
    requires e == Entry(name, packages[name].version, "npm-registry", Some(packages[name].digest), e.scopes)
    requires Sorted(e.scopes, Before) && forall s :: s in e.scopes <==> Needed(packages, direct, name, s)
    ensures RowOf(e, name, packages, direct)
  {
  }

  /** The closing part of `bun_inventory`. */
  method Inventory(name: string, version: string, packages: map<string, BunPackage>, direct: seq<(string, string)>)
    returns (r: Result<seq<Entry>>)
    ensures r.Ok? <==> Complete(packages, direct) && EachNeeded(packages, direct)
    ensures r.Ok? ==> IsBunInventory(r.value, name, version, packages, direct)
    ensures r.Err? ==> r.error == if Complete(packages, direct) then "PACKAGE_UNREACHABLE" else "PACKAGE_UNRESOLVED"
  {
    hide Complete, EachNeeded, Needed, RowOf, Sorted, IsBunInventory;
    var scopes, _ := WalkNames(packages, direct);
    if scopes.None? {
      return Err("PACKAGE_UNRESOLVED");
    }
    var rows := BunRows(name, version, packages, direct, scopes.value);
    if rows.None? {
      return Err("PACKAGE_UNREACHABLE");
    }
    RowKeysDiffer(rows.value, name, version, packages, direct);
    var output := SortEntries(rows.value);
    RowsAreBunInventory(rows.value, output, name, version, packages, direct);
    r := Ok(output);
  }

  lemma {:induction false} RowsAreBunInventory(rows: seq<Entry>, out: seq<Entry>, name: string, version: string,
                                               packages: map<string, BunPackage>, direct: seq<(string, string)>)
    requires |rows| == |packages| + 1 && rows[0] == WorkspaceRow(name, version)
    requires forall i :: 0 < i < |rows| ==> rows[i].name in packages && RowOf(rows[i], rows[i].name, packages, direct)
    requires forall p :: p in packages ==> exists i :: 0 < i < |rows| && rows[i].name == p
    requires Sorted(out, EntryBefore) && |out| == |rows| && forall e :: e in out <==> e in rows
    ensures IsBunInventory(out, name, version, packages, direct)
  {
    hide RowOf, Sorted;
    assert rows[0] in rows;
    forall e | e in out ensures e == WorkspaceRow(name, version) || (e.name in packages && RowOf(e, e.name, packages, direct)) {
      var i :| 0 <= i < |rows| && rows[i] == e;
    }
    forall p | p in packages ensures exists e :: e in out && RowOf(e, p, packages, direct) {
      var i :| 0 < i < |rows| && rows[i].name == p;
      assert rows[i] in rows;
    }
  }

  lemma {:induction false} RowKeysDiffer(rows: seq<Entry>, name: string, version: string,
                                         packages: map<string, BunPackage>,
                                         direct: seq<(string, string)>)
    requires rows != [] && rows[0] == WorkspaceRow(name, version)
    requires forall i :: 0 < i < |rows| ==> rows[i].name in packages && RowOf(rows[i], rows[i].name, packages, direct)
    requires forall i, j :: 0 < i < j < |rows| ==> rows[i].name != rows[j].name
    ensures forall i, j :: 0 <= i < j < |rows| ==> SortKey(rows[i]) != SortKey(rows[j])
  {
    hide Needed, Sorted;
    forall i, j | 0 <= i < j < |rows| ensures SortKey(rows[i]) != SortKey(rows[j]) {
      assert rows[j].source == "npm-registry";
      assert "workspace"[0] == 'w';
    }
  }
}
