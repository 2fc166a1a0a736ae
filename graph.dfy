/** The state records and the directed transition graph between them, with the
    breadth-first route search (`FindRoute`). */
module StateGraph {
  import opened Wrappers

  /** Identity of a `State` object: its index in the controller's arena of
      every state ever created. List entries, transitions, the current state
      and the navigation queue all hold handles, as the source holds references. */
  type Handle = nat

  /** One `State` object: its name, editing group, flags sent on entry, loop
      flag, duration in seconds, and its outgoing transitions in list order. */
  datatype State = State(
    name: string,
    group: string,
    setFlags: string,
    infinite: bool,
    duration: real,
    transitions: seq<Handle>)

  /** Every transition of every state refers to a state of the arena. */
  ghost predicate Closed(heap: seq<State>) {
    forall h, k :: 0 <= h < |heap| && 0 <= k < |heap[h].transitions| ==> heap[h].transitions[k] < |heap|
  }

  predicate Edge(heap: seq<State>, a: Handle, b: Handle) {
    a < |heap| && b in heap[a].transitions
  }

  /** `path` is a walk out of `from`: its first element is a transition of
      `from` and each element is a transition of the one before. `from` itself
      is not part of the path, as in the list `FindRoute` returns. */
  ghost predicate IsWalk(heap: seq<State>, from: Handle, path: seq<Handle>) {
    && (|path| > 0 ==> Edge(heap, from, path[0]))
    && (forall i :: 0 <= i < |path| - 1 ==> Edge(heap, path[i], path[i + 1]))
  }

  /** Where a walk out of `from` ends. */
  function Last(from: Handle, path: seq<Handle>): Handle {
    if path == [] then from else path[|path| - 1]
  }

  ghost predicate Reachable(heap: seq<State>, from: Handle, to: Handle) {
    exists path :: IsWalk(heap, from, path) && Last(from, path) == to
  }

  /** `path` is a walk out of `from` with the fewest hops among all walks to
      the same end. */
  ghost predicate Shortest(heap: seq<State>, from: Handle, path: seq<Handle>) {
    && IsWalk(heap, from, path)
    && forall p :: IsWalk(heap, from, p) && Last(from, p) == Last(from, path) ==> |path| <= |p|
  }

  /** A walk in a closed arena stays inside it. */
  lemma WalkInArena(heap: seq<State>, from: Handle, path: seq<Handle>)
    requires Closed(heap) && from < |heap| && IsWalk(heap, from, path)
    ensures forall i :: 0 <= i < |path| ==> path[i] < |heap|
  {
    forall i | 0 <= i < |path| ensures path[i] < |heap| {
      if i == 0 {
        assert Edge(heap, from, path[0]);
      } else {
        assert Edge(heap, path[i - 1], path[i]);
      }
    }
  }

  // ---------------------------------------------------------------
  // Breadth-first search
  // ---------------------------------------------------------------

  /** The handles below `n`. */
  ghost function Handles(n: nat): (r: set<Handle>)
    ensures forall h: Handle :: h in r <==> h < n
  {
    if n == 0 then {} else Handles(n - 1) + {n - 1}
  }

  /** The search state of `FindRoute`: `visited` with the hop count `dist` of
      the predecessor chain `prev` back to `start`; a queue whose hop counts are
      sorted and lie in `level .. level + 1`; every expanded state (visited,
      no longer queued, not in `skip`) is at most `level` hops away and all its
      transitions are visited at most one hop further; and `target`, once
      visited, is still waiting in the queue. */
  ghost predicate SearchInv(heap: seq<State>, start: Handle, target: Handle,
                            visited: set<Handle>, prev: map<Handle, Handle>, dist: map<Handle, nat>,
                            queue: seq<Handle>, level: nat, skip: set<Handle>)
  {
    && PredecessorTree(heap, start, visited, prev, dist)
    && LevelQueue(visited, dist, queue, level)
    && ExpandedClosed(heap, visited, dist, queue, level, skip)
    && (target in visited ==> target in queue)
  }

  /** Each visited state other than `start` is one hop after its recorded
      predecessor, and `dist` counts the hops back to `start`. */
  ghost predicate PredecessorTree(heap: seq<State>, start: Handle,
                                  visited: set<Handle>, prev: map<Handle, Handle>, dist: map<Handle, nat>)
  {
    && visited == dist.Keys
    && start in visited && dist[start] == 0
    && (forall v :: v in visited ==> v < |heap|)
    && (forall v :: v in visited && v != start ==>
          v in prev && prev[v] in visited && dist[v] == dist[prev[v]] + 1 && Edge(heap, prev[v], v))
  }

  /** The queue holds visited states in nondecreasing hop count, all within
      `level .. level + 1`. */
  ghost predicate LevelQueue(visited: set<Handle>, dist: map<Handle, nat>, queue: seq<Handle>, level: nat)
    requires visited == dist.Keys
  {
    && (forall i :: 0 <= i < |queue| ==> queue[i] in visited && level <= dist[queue[i]] <= level + 1)
    && (forall i, j :: 0 <= i <= j < |queue| ==> dist[queue[i]] <= dist[queue[j]])
  }

  /** Every expanded state (visited, no longer queued, not in `skip`) is at
      most `level` hops away and its transitions are visited, at most one hop
      further. */
  ghost predicate ExpandedClosed(heap: seq<State>, visited: set<Handle>, dist: map<Handle, nat>,
                                 queue: seq<Handle>, level: nat, skip: set<Handle>)
    requires visited == dist.Keys && forall v :: v in visited ==> v < |heap|
  {
    forall p :: p in visited && p !in queue && p !in skip ==>
      && dist[p] <= level
      && forall n :: n in heap[p].transitions ==> n in visited && dist[n] <= dist[p] + 1
  }

  /** Taking the head off the queue (it is not `target`) starts its expansion. */
  lemma DequeueKeeps(heap: seq<State>, start: Handle, target: Handle,
                     visited: set<Handle>, prev: map<Handle, Handle>, dist: map<Handle, nat>,
                     queue: seq<Handle>, level: nat)
    requires SearchInv(heap, start, target, visited, prev, dist, queue, level, {})
    requires |queue| > 0 && queue[0] != target
    ensures SearchInv(heap, start, target, visited, prev, dist, queue[1..], dist[queue[0]], {queue[0]})
  {
    var rest := queue[1..];
    forall i, j | 0 <= i <= j < |rest| ensures dist[rest[i]] <= dist[rest[j]] {
      assert rest[i] == queue[i + 1] && rest[j] == queue[j + 1];
    }
    forall i | 0 <= i < |rest| ensures rest[i] in visited && dist[queue[0]] <= dist[rest[i]] <= dist[queue[0]] + 1 {
      assert rest[i] == queue[i + 1];
    }
    if target in visited {
      var k :| 0 <= k < |queue| && queue[k] == target;
      assert target == rest[k - 1];
    }
  }

  lemma VisitKeepsTree(heap: seq<State>, start: Handle,
                       visited: set<Handle>, prev: map<Handle, Handle>, dist: map<Handle, nat>,
                       level: nat, current: Handle, n: Handle)
    requires PredecessorTree(heap, start, visited, prev, dist)
    requires current in visited && dist[current] == level
    requires Edge(heap, current, n) && n < |heap| && n !in visited
    ensures PredecessorTree(heap, start, visited + {n}, prev[n := current], dist[n := level + 1])
  {
  }

  lemma VisitKeepsQueue(visited: set<Handle>, dist: map<Handle, nat>, queue: seq<Handle>, level: nat, n: Handle)
    requires visited == dist.Keys && n !in visited
    requires LevelQueue(visited, dist, queue, level)
    ensures LevelQueue(visited + {n}, dist[n := level + 1], queue + [n], level)
  {
    var queue' := queue + [n];
    var dist' := dist[n := level + 1];
    forall i | 0 <= i < |queue'| ensures queue'[i] in visited + {n} && level <= dist'[queue'[i]] <= level + 1 {
      if i < |queue| { assert queue'[i] == queue[i]; }
    }
    forall i, j | 0 <= i <= j < |queue'| ensures dist'[queue'[i]] <= dist'[queue'[j]] {
      if j < |queue| { assert queue'[i] == queue[i] && queue'[j] == queue[j]; }
      else if i < |queue| { assert queue'[i] == queue[i]; }
    }
  }

  lemma VisitKeepsClosed(heap: seq<State>, visited: set<Handle>, dist: map<Handle, nat>,
                         queue: seq<Handle>, level: nat, current: Handle, n: Handle)
    requires visited == dist.Keys && (forall v :: v in visited ==> v < |heap|)
    requires n < |heap| && n !in visited
    requires ExpandedClosed(heap, visited, dist, queue, level, {current})
    ensures ExpandedClosed(heap, visited + {n}, dist[n := level + 1], queue + [n], level, {current})
  {
    var queue' := queue + [n];
    assert n in queue' by { assert queue'[|queue|] == n; }
    forall p | p in queue ensures p in queue' {
      QueueAppendHas(queue, p, n);
    }
  }

  lemma QueueAppendHas(queue: seq<Handle>, x: Handle, n: Handle)
    requires x in queue || x == n
    ensures x in queue + [n]
  {
    if x in queue {
      var k :| 0 <= k < |queue| && queue[k] == x;
      assert (queue + [n])[k] == x;
    } else {
      assert (queue + [n])[|queue|] == x;
    }
  }

  /** Seeing a new transition target `n` of the expanded state `current`. */
  lemma VisitKeeps(heap: seq<State>, start: Handle, target: Handle,
                   visited: set<Handle>, prev: map<Handle, Handle>, dist: map<Handle, nat>,
                   queue: seq<Handle>, level: nat, current: Handle, n: Handle)
    requires SearchInv(heap, start, target, visited, prev, dist, queue, level, {current})
    requires current in visited && dist[current] == level
    requires Edge(heap, current, n) && n < |heap| && n !in visited
    ensures SearchInv(heap, start, target, visited + {n}, prev[n := current], dist[n := level + 1],
                      queue + [n], level, {current})
  {
    VisitKeepsTree(heap, start, visited, prev, dist, level, current, n);
    VisitKeepsQueue(visited, dist, queue, level, n);
    VisitKeepsClosed(heap, visited, dist, queue, level, current, n);
    if target in visited + {n} {
      QueueAppendHas(queue, target, n);
    }
  }

  /** All transitions of `current` seen: `current` counts as expanded. */
  lemma ExpandDone(heap: seq<State>, start: Handle, target: Handle,
                   visited: set<Handle>, prev: map<Handle, Handle>, dist: map<Handle, nat>,
                   queue: seq<Handle>, level: nat, current: Handle)
    requires SearchInv(heap, start, target, visited, prev, dist, queue, level, {current})
    requires current in visited && dist[current] == level
    requires forall n :: n in heap[current].transitions ==> n in visited && dist[n] <= level + 1
    ensures SearchInv(heap, start, target, visited, prev, dist, queue, level, {})
  {
  }

  function NodeAt(from: Handle, path: seq<Handle>, i: nat): Handle
    requires i <= |path|
  {
    if i == 0 then from else path[i - 1]
  }

  /** Walking along expanded states from `start`, the first state still queued
      is no closer than the queue's head: so no walk reaches the head in fewer
      hops than `dist` says. */
  lemma {:induction false} ScanWalk(heap: seq<State>, start: Handle, target: Handle,
                                    visited: set<Handle>, prev: map<Handle, Handle>, dist: map<Handle, nat>,
                                    queue: seq<Handle>, level: nat, w: seq<Handle>, i: nat)
    requires SearchInv(heap, start, target, visited, prev, dist, queue, level, {})
    requires |queue| > 0 && IsWalk(heap, start, w) && Last(start, w) == queue[0]
    requires i <= |w| && NodeAt(start, w, i) in visited && dist[NodeAt(start, w, i)] <= i
    ensures dist[queue[0]] <= |w|
    decreases |w| - i
  {
    var v := NodeAt(start, w, i);
    if v in queue {
      var k :| 0 <= k < |queue| && queue[k] == v;
      assert dist[queue[0]] <= dist[queue[k]];
    } else {
      assert i < |w|;
      assert Edge(heap, v, w[i]);
      ScanWalk(heap, start, target, visited, prev, dist, queue, level, w, i + 1);
    }
  }

  /** The head of the queue is reached by no walk shorter than its hop count. */
  lemma HeadIsClosest(heap: seq<State>, start: Handle, target: Handle,
                      visited: set<Handle>, prev: map<Handle, Handle>, dist: map<Handle, nat>,
                      queue: seq<Handle>, level: nat)
    requires SearchInv(heap, start, target, visited, prev, dist, queue, level, {})
    requires |queue| > 0
    ensures forall w :: IsWalk(heap, start, w) && Last(start, w) == queue[0] ==> dist[queue[0]] <= |w|
  {
    forall w | IsWalk(heap, start, w) && Last(start, w) == queue[0]
      ensures dist[queue[0]] <= |w|
    {
      ScanWalk(heap, start, target, visited, prev, dist, queue, level, w, 0);
    }
  }

  /** Once the queue is empty, every walk out of `start` stays among the visited states. */
  lemma {:induction false} ExhaustedCoversWalks(heap: seq<State>, start: Handle, target: Handle,
                                                visited: set<Handle>, prev: map<Handle, Handle>, dist: map<Handle, nat>,
                                                level: nat, w: seq<Handle>)
    requires SearchInv(heap, start, target, visited, prev, dist, [], level, {})
    requires IsWalk(heap, start, w)
    ensures Last(start, w) in visited
    decreases |w|
  {
    if w != [] {
      var w' := w[..|w| - 1];
      assert IsWalk(heap, start, w');
      ExhaustedCoversWalks(heap, start, target, visited, prev, dist, level, w');
      assert Edge(heap, Last(start, w'), w[|w| - 1]);
    }
  }

  /** An exhausted search that never saw `target` proves it unreachable. */
  lemma ExhaustedUnreachable(heap: seq<State>, start: Handle, target: Handle,
                             visited: set<Handle>, prev: map<Handle, Handle>, dist: map<Handle, nat>,
                             level: nat)
    requires SearchInv(heap, start, target, visited, prev, dist, [], level, {})
    ensures !Reachable(heap, start, target)
  {
    forall w | IsWalk(heap, start, w) ensures Last(start, w) != target {
      ExhaustedCoversWalks(heap, start, target, visited, prev, dist, level, w);
    }
  }

  lemma {:induction false} WalkSuffix(heap: seq<State>, from: Handle, path: seq<Handle>, i: nat)
    requires IsWalk(heap, from, path) && i < |path|
    ensures IsWalk(heap, path[i], path[i + 1..]) && Last(path[i], path[i + 1..]) == Last(from, path)
  {
    var s := path[i + 1..];
    forall k | 0 <= k < |s| - 1 ensures Edge(heap, s[k], s[k + 1]) {
      assert s[k] == path[i + 1 + k] && s[k + 1] == path[i + 2 + k];
    }
  }

  lemma {:induction false} WalkSplice(heap: seq<State>, from: Handle, path: seq<Handle>, i: nat, j: nat)
    requires IsWalk(heap, from, path) && i < j < |path| && path[i] == path[j]
    ensures IsWalk(heap, from, path[..i + 1] + path[j + 1..])
    ensures Last(from, path[..i + 1] + path[j + 1..]) == Last(from, path)
  {
    var s := path[..i + 1] + path[j + 1..];
    forall k | 0 <= k < |s| - 1 ensures Edge(heap, s[k], s[k + 1]) {
      if k < i {
        assert s[k] == path[k] && s[k + 1] == path[k + 1];
      } else if k == i {
        assert s[k] == path[j] && s[k + 1] == path[j + 1];
      } else {
        assert s[k] == path[j + k - i] && s[k + 1] == path[j + k - i + 1];
      }
    }
  }

  /** A shortest walk never returns to its origin and never repeats a state. */
  lemma ShortestIsSimple(heap: seq<State>, from: Handle, path: seq<Handle>)
    requires Shortest(heap, from, path)
    ensures from !in path
    ensures forall i, j :: 0 <= i < j < |path| ==> path[i] != path[j]
  {
    if from in path {
      var i :| 0 <= i < |path| && path[i] == from;
      WalkSuffix(heap, from, path, i);
    }
    forall i, j | 0 <= i < j < |path| ensures path[i] != path[j] {
      if path[i] == path[j] {
        WalkSplice(heap, from, path, i, j);
      }
    }
  }

  /** Lines 871-879 of the search, reached when `target` is at the head of
      the queue: follow `prev` back from `target` to `start`. The source
      appends and reverses at the end; prepending builds the same list. */
  method TracePath(heap: seq<State>, start: Handle, target: Handle,
                   visited: set<Handle>, prev: map<Handle, Handle>, ghost dist: map<Handle, nat>,
                   ghost queue: seq<Handle>, ghost level: nat)
    returns (path: seq<Handle>)
    requires SearchInv(heap, start, target, visited, prev, dist, queue, level, {})
    requires |queue| > 0 && queue[0] == target
    ensures Shortest(heap, start, path) && Last(start, path) == target
    ensures start !in path
    ensures forall i, j :: 0 <= i < j < |path| ==> path[i] != path[j]
  {
    path := [];
    var tmp := target;
    while tmp != start
      invariant tmp in visited
      invariant |path| + dist[tmp] == dist[target]
      invariant IsWalk(heap, tmp, path) && Last(tmp, path) == target
      decreases dist[tmp]
    {
      path := [tmp] + path;
      tmp := prev[tmp];
    }
    HeadIsClosest(heap, start, target, visited, prev, dist, queue, level);
    ShortestIsSimple(heap, start, path);
  }

  /** The search state part-way through expanding `current`: its first `i`
      transitions are seen, at most one hop further than `current`. */
  ghost predicate Expanding(heap: seq<State>, start: Handle, target: Handle,
                            visited: set<Handle>, prev: map<Handle, Handle>, dist: map<Handle, nat>,
                            queue: seq<Handle>, level: nat, current: Handle, i: nat,
                            visited0: set<Handle>, queue0: seq<Handle>)
  {
    && SearchInv(heap, start, target, visited, prev, dist, queue, level, {current})
    && current in visited && dist[current] == level
    && current < |heap| && i <= |heap[current].transitions|
    && (forall k :: 0 <= k < i ==>
          heap[current].transitions[k] in visited && dist[heap[current].transitions[k]] <= level + 1)
    && visited0 <= visited
    && (visited == visited0 ==> queue == queue0)
  }

  /** Step of the expansion loop for a transition already seen. */
  lemma ExpandingSeen(heap: seq<State>, start: Handle, target: Handle,
                      visited: set<Handle>, prev: map<Handle, Handle>, dist: map<Handle, nat>,
                      queue: seq<Handle>, level: nat, current: Handle, i: nat,
                      visited0: set<Handle>, queue0: seq<Handle>)
    requires Expanding(heap, start, target, visited, prev, dist, queue, level, current, i, visited0, queue0)
    requires i < |heap[current].transitions| && heap[current].transitions[i] in visited
    ensures Expanding(heap, start, target, visited, prev, dist, queue, level, current, i + 1, visited0, queue0)
  {
    var n := heap[current].transitions[i];
    if n in queue {
      var k :| 0 <= k < |queue| && queue[k] == n;
    }
  }

  /** Step of the expansion loop for a transition seen for the first time. */
  lemma ExpandingNew(heap: seq<State>, start: Handle, target: Handle,
                     visited: set<Handle>, prev: map<Handle, Handle>, dist: map<Handle, nat>,
                     queue: seq<Handle>, level: nat, current: Handle, i: nat,
                     visited0: set<Handle>, queue0: seq<Handle>)
    requires Closed(heap)
    requires Expanding(heap, start, target, visited, prev, dist, queue, level, current, i, visited0, queue0)
    requires i < |heap[current].transitions| && heap[current].transitions[i] !in visited
    ensures var n := heap[current].transitions[i];
      Expanding(heap, start, target, visited + {n}, prev[n := current], dist[n := level + 1],
                queue + [n], level, current, i + 1, visited0, queue0)
  {
    var n := heap[current].transitions[i];
    VisitKeeps(heap, start, target, visited, prev, dist, queue, level, current, n);
  }

  /** Lines 881-889 of the search: mark each unseen transition of `current`
      as seen, record `current` as its predecessor and queue it. */
  method Expand(heap: seq<State>, start: Handle, target: Handle,
                visited: set<Handle>, prev: map<Handle, Handle>, ghost dist: map<Handle, nat>,
                queue: seq<Handle>, ghost level: nat, current: Handle)
    returns (visited': set<Handle>, prev': map<Handle, Handle>, ghost dist': map<Handle, nat>, queue': seq<Handle>)
    requires Closed(heap)
    requires SearchInv(heap, start, target, visited, prev, dist, queue, level, {current})
    requires current in visited && dist[current] == level
    ensures SearchInv(heap, start, target, visited', prev', dist', queue', level, {})
    ensures visited <= visited' && (visited' == visited ==> queue' == queue)
  {
    visited', prev', dist', queue' := visited, prev, dist, queue;
    var ts := heap[current].transitions;
    for i := 0 to |ts|
      invariant Expanding(heap, start, target, visited', prev', dist', queue', level, current, i, visited, queue)
    {
      var neighbor := ts[i];
      if neighbor in visited' {
        ExpandingSeen(heap, start, target, visited', prev', dist', queue', level, current, i, visited, queue);
      } else {
        ExpandingNew(heap, start, target, visited', prev', dist', queue', level, current, i, visited, queue);
        visited' := visited' + {neighbor};
        prev' := prev'[neighbor := current];
        queue' := queue' + [neighbor];
        dist' := dist'[neighbor := level + 1];
      }
    }
    ExpandDone(heap, start, target, visited', prev', dist', queue', level, current);
  }

  lemma FewerUnseen(n: nat, before: set<Handle>, after: set<Handle>)
    requires before < after && forall v :: v in after ==> v < n
    ensures Handles(n) - after < Handles(n) - before
  {
    assert exists x :: x in after && x !in before;
    var x :| x in after && x !in before;
    assert x in Handles(n) - before;
  }

  /** `FindRoute`: breadth-first search from `start`, expanding each state's
      transitions in list order and recording the first predecessor of each
      newly seen state; on dequeuing `target` the predecessor chain is walked
      back to `start`. The route excludes `start` and ends at `target`; it is
      absent exactly when `target` cannot be reached. */
  method FindRoute(heap: seq<State>, start: Handle, target: Handle) returns (route: Option<seq<Handle>>)
    requires Closed(heap) && start < |heap| && target < |heap|
    ensures route.None? <==> !Reachable(heap, start, target)
    ensures route.Some? ==> Shortest(heap, start, route.value) && Last(start, route.value) == target
    ensures route.Some? ==> start !in route.value
    ensures route.Some? ==> forall i, j :: 0 <= i < j < |route.value| ==> route.value[i] != route.value[j]
  {
    var prev: map<Handle, Handle> := map[];
    var queue: seq<Handle> := [start];
    var visited: set<Handle> := {start};
    ghost var dist: map<Handle, nat> := map[start := 0];
    ghost var level: nat := 0;
    while |queue| > 0
      invariant SearchInv(heap, start, target, visited, prev, dist, queue, level, {})
      decreases Handles(|heap|) - visited, |queue|
    {
      var found;
      found, visited, prev, dist, queue, level := SearchStep(heap, start, target, visited, prev, dist, queue, level);
      if found.Some? {
        assert IsWalk(heap, start, found.value) && Last(start, found.value) == target;
        return found;
      }
    }
    ExhaustedUnreachable(heap, start, target, visited, prev, dist, level);
    return None;
  }

  /** One round of the search loop (lines 868-890): take the head of the
      queue; if it is `target`, trace the route back, otherwise expand it. */
  method SearchStep(heap: seq<State>, start: Handle, target: Handle,
                    visited: set<Handle>, prev: map<Handle, Handle>, ghost dist: map<Handle, nat>,
                    queue: seq<Handle>, ghost level: nat)
    returns (found: Option<seq<Handle>>, visited': set<Handle>, prev': map<Handle, Handle>,
             ghost dist': map<Handle, nat>, queue': seq<Handle>, ghost level': nat)
    requires Closed(heap) && |queue| > 0
    requires SearchInv(heap, start, target, visited, prev, dist, queue, level, {})
    ensures found.Some? ==> Shortest(heap, start, found.value) && Last(start, found.value) == target
    ensures found.Some? ==> start !in found.value
    ensures found.Some? ==> forall i, j :: 0 <= i < j < |found.value| ==> found.value[i] != found.value[j]
    ensures found.None? ==> SearchInv(heap, start, target, visited', prev', dist', queue', level', {})
    ensures found.None? ==> visited <= visited' && (visited' == visited ==> |queue'| < |queue|)
    ensures found.None? && visited' != visited ==> Handles(|heap|) - visited' < Handles(|heap|) - visited
  {
    var current := queue[0];
    if current == target {
      var path := TracePath(heap, start, target, visited, prev, dist, queue, level);
      return Some(path), visited, prev, dist, queue, level;
    }
    DequeueKeeps(heap, start, target, visited, prev, dist, queue, level);
    level' := dist[current];
    visited', prev', dist', queue' := Expand(heap, start, target, visited, prev, dist, queue[1..], level', current);
    found := None;
    if visited' != visited {
      FewerUnseen(|heap|, visited, visited');
    }
  }
}
