/** Reachability in a finite graph whose states carry a scope, and the worklist that explores it.

    A state is a node together with the scope it was reached for; edges keep the scope. */
module Reachability {
  import opened Sequences

  /** Consecutive nodes of a path are joined by an edge. */
  ghost predicate IsPath<K>(graph: map<K, set<K>>, path: seq<K>) {
    var n := |path| - 1;
    n >= 0 && (n == 0 || (IsPath(graph, path[..n]) && path[n - 1] in graph && path[n] in graph[path[n - 1]]))
  }

  ghost predicate Reaches<K(!new)>(graph: map<K, set<K>>, from: K, to: K) {
    exists path: seq<K> :: IsPath(graph, path) && path[0] == from && path[|path| - 1] == to
  }

  /** Some direct dependency of the state's scope reaches the state's node. */
  ghost predicate Reached<K(!new)>(graph: map<K, set<K>>, direct: set<(K, string)>, state: (K, string)) {
    exists from: K :: (from, state.1) in direct && Reaches(graph, from, state.0)
  }

  lemma {:induction false} DirectIsReached<K(!new)>(graph: map<K, set<K>>, direct: set<(K, string)>, state: (K, string))
    requires state in direct
    ensures Reached(graph, direct, state)
  {
    assert IsPath(graph, [state.0]);
    assert Reaches(graph, state.0, state.0);
    assert (state.0, state.1) in direct;
  }

  lemma {:induction false} EdgeIsReached<K(!new)>(graph: map<K, set<K>>, direct: set<(K, string)>,
                                           state: (K, string), to: K)
    requires Reached(graph, direct, state) && state.0 in graph && to in graph[state.0]
    ensures Reached(graph, direct, (to, state.1))
  {
    var from: K :| (from, state.1) in direct && Reaches(graph, from, state.0);
    var path: seq<K> :| IsPath(graph, path) && path[0] == from && path[|path| - 1] == state.0;
    var longer := path + [to];
    assert longer[..|path|] == path;
    assert IsPath(graph, longer);
    assert longer[0] == from && longer[|longer| - 1] == to;
    assert Reaches(graph, from, to);
  }

  /** A set of states that holds the direct ones and is closed under edges holds all reached ones. */
  lemma {:induction false} ClosedHoldsReached<K(!new)>(graph: map<K, set<K>>, direct: set<(K, string)>,
                                                states: set<(K, string)>, state: (K, string))
    requires direct <= states
    requires forall s, to :: s in states && s.0 in graph && to in graph[s.0] ==> (to, s.1) in states
    requires Reached(graph, direct, state)
    ensures state in states
  {
    var from: K :| (from, state.1) in direct && Reaches(graph, from, state.0);
    var path: seq<K> :| IsPath(graph, path) && path[0] == from && path[|path| - 1] == state.0;
    PathStaysInside(graph, states, path, state.1);
    assert state == (state.0, state.1);
  }

  lemma {:induction false} PathStaysInside<K(!new)>(graph: map<K, set<K>>, states: set<(K, string)>, path: seq<K>,
                                             scope: string)
    requires forall s, to :: s in states && s.0 in graph && to in graph[s.0] ==> (to, s.1) in states
    requires IsPath(graph, path) && (path[0], scope) in states
    ensures (path[|path| - 1], scope) in states
  {
    var n := |path| - 1;
    if n > 0 {
      PathStaysInside(graph, states, path[..n], scope);
      assert (path[n - 1], scope).0 in graph;
    }
  }

  /** The worklist between two rounds: `done` lists the processed states in order.  Every scheduled
      state is processed or queued, never both, and is reached; what a processed state leads to
      is scheduled. */
  ghost predicate Walking<K(!new)>(graph: map<K, set<K>>, direct: set<(K, string)>,
                                   scheduled: set<(K, string)>, queue: seq<(K, string)>, done: seq<(K, string)>) {
    && (forall s :: s in scheduled <==> s in done || s in queue)
    && Distinct(done) && Distinct(queue) && (forall s :: s in done ==> s !in queue)
    && direct <= scheduled
    && (forall s, to :: s in done && s.0 in graph && to in graph[s.0] ==> (to, s.1) in scheduled)
    && (forall s :: s in done ==> s.0 in graph)
    && (forall s :: s in scheduled ==> Reached(graph, direct, s))
  }

  /** When the queue is empty the processed states are exactly the reached ones. */
  lemma {:induction false} WalkEnds<K(!new)>(graph: map<K, set<K>>, direct: set<(K, string)>,
                                      scheduled: set<(K, string)>, done: seq<(K, string)>)
    requires Walking(graph, direct, scheduled, [], done)
    ensures forall s :: s in done <==> Reached(graph, direct, s)
    ensures Distinct(done) && forall s :: s in done ==> s.0 in graph
  {
    forall s | Reached(graph, direct, s) ensures s in done {
      ClosedHoldsReached(graph, direct, scheduled, s);
    }
  }

  /** While one state is being processed: `pending` holds the successors still to be looked at. */
  ghost predicate Expanding<K(!new)>(graph: map<K, set<K>>, direct: set<(K, string)>, scheduled: set<(K, string)>,
                                     queue: seq<(K, string)>, done: seq<(K, string)>, current: (K, string), pending: set<K>) {
    && (forall s :: s in scheduled <==> s in done || s in queue || s == current)
    && Distinct(done) && Distinct(queue) && (forall s :: s in done ==> s !in queue)
    && current !in done && current !in queue
    && direct <= scheduled
    && (forall s, to :: s in done && s.0 in graph && to in graph[s.0] ==> (to, s.1) in scheduled)
    && (forall s :: s in done ==> s.0 in graph)
    && (forall s :: s in scheduled ==> Reached(graph, direct, s))
    && current.0 in graph && pending <= graph[current.0]
    && (forall to :: to in graph[current.0] - pending ==> (to, current.1) in scheduled)
  }

  lemma {:induction false} Pop<K(!new)>(graph: map<K, set<K>>, direct: set<(K, string)>, scheduled: set<(K, string)>,
                                        queue: seq<(K, string)>, done: seq<(K, string)>)
    requires Walking(graph, direct, scheduled, queue, done) && queue != []
    requires queue[0].0 in graph
    ensures Expanding(graph, direct, scheduled, queue[1..], done, queue[0], graph[queue[0].0])
  {
    hide Reached, Distinct;
    DistinctTail(queue);
  }

  lemma {:induction false} Schedule<K(!new)>(graph: map<K, set<K>>, direct: set<(K, string)>,
                                      scheduled: set<(K, string)>,
                                             queue: seq<(K, string)>, done: seq<(K, string)>, current: (K, string), pending: set<K>, to: K)
    requires Expanding(graph, direct, scheduled, queue, done, current, pending) && to in graph[current.0]
    ensures (to, current.1) in scheduled ==> Expanding(graph, direct, scheduled, queue, done, current, pending - {to})
    ensures (to, current.1) !in scheduled ==>
              Expanding(graph, direct, scheduled + {(to, current.1)}, queue + [(to, current.1)], done, current, pending - {to})
  {
    hide Reached, Distinct;
    EdgeIsReached(graph, direct, current, to);
    if (to, current.1) !in scheduled {
      DistinctAppend(queue, (to, current.1));
    }
  }

  lemma {:induction false} Finish<K(!new)>(graph: map<K, set<K>>, direct: set<(K, string)>, scheduled: set<(K, string)>,
                                           queue: seq<(K, string)>, done: seq<(K, string)>, current: (K, string))
    requires Expanding(graph, direct, scheduled, queue, done, current, {})
    ensures Walking(graph, direct, scheduled, queue, done + [current])
  {
    hide Reached, Distinct;
    DistinctAppend(done, current);
    assert graph[current.0] - {} == graph[current.0];
  }

  /** The states a walk can ever schedule. */
  ghost predicate Bounds<K(!new)>(graph: map<K, set<K>>, direct: set<(K, string)>, universe: set<(K, string)>) {
    direct <= universe && forall s, to :: s in universe && s.0 in graph && to in graph[s.0] ==> (to, s.1) in universe
  }

  lemma {:induction false} WithinBounds<K(!new)>(graph: map<K, set<K>>, direct: set<(K, string)>,
                                          universe: set<(K, string)>, state: (K, string))
    requires Bounds(graph, direct, universe) && Reached(graph, direct, state)
    ensures state in universe
  {
    ClosedHoldsReached(graph, direct, universe, state);
  }
}
