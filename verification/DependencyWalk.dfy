/** The breadth-first walk over the libraries a library depends on, and the local group it collects. */
module DependencyWalk {
  import opened Options
  import opened LinkedLists

  /** A loaded library, by the address of its record. Dependencies may be cyclic. */
  type Soinfo = nat

  datatype Action = Continue | Skip | Stop

  const API_N := 24

  /** Every library that can come up: finitely many, holding the children of each of its members. */
  ghost predicate Closed(all: set<Soinfo>, children: Soinfo -> seq<Soinfo>) {
    forall x, c :: x in all && c in children(x) ==> c in all
  }

  /** c is a child of p, and the action on p lets the walk go on to p's children. */
  ghost predicate Edge(children: Soinfo -> seq<Soinfo>, act: Soinfo -> Action, p: Soinfo, c: Soinfo) {
    c in children(p) && act(p) == Continue
  }

  /** What is at most d edges away from the root. */
  ghost function Ball(all: set<Soinfo>, children: Soinfo -> seq<Soinfo>, act: Soinfo -> Action, root: Soinfo, d: nat)
    : set<Soinfo>
  {
    if d == 0 then {root}
    else
      var inner := Ball(all, children, act, root, d - 1);
      inner + set c | c in all && exists p :: p in inner && Edge(children, act, p, c)
  }

  ghost predicate Reachable(
    all: set<Soinfo>, children: Soinfo -> seq<Soinfo>, act: Soinfo -> Action, root: Soinfo, x: Soinfo) {
    exists d: nat :: x in Ball(all, children, act, root, d)
  }

  /** No library is listed before one that is nearer to the root. */
  ghost predicate NearestFirst(
    all: set<Soinfo>, children: Soinfo -> seq<Soinfo>, act: Soinfo -> Action, root: Soinfo, s: seq<Soinfo>) {
    forall d: nat, i, j | 0 <= i < j < |s| && s[j] in Ball(all, children, act, root, d) ::
      s[i] in Ball(all, children, act, root, d)
  }

  lemma {:induction false} Wider(
    all: set<Soinfo>, children: Soinfo -> seq<Soinfo>, act: Soinfo -> Action, root: Soinfo, d: nat, e: nat)
    requires d <= e
    ensures Ball(all, children, act, root, d) <= Ball(all, children, act, root, e)
  {
    if d < e {
      Wider(all, children, act, root, d, e - 1);
    }
  }

  /** The queue after deduplicating pushes. */
  function PushAll(queue: seq<Soinfo>, more: seq<Soinfo>): seq<Soinfo> {
    if more == [] then queue
    else
      var q := PushAll(queue, more[..|more| - 1]);
      var x := more[|more| - 1];
      if x in q then q else q + [x]
  }

  lemma {:induction false} Pushed(queue: seq<Soinfo>, more: seq<Soinfo>)
    ensures queue <= PushAll(queue, more)
    ensures forall x :: x in PushAll(queue, more) <==> x in queue || x in more
    ensures forall i :: |queue| <= i < |PushAll(queue, more)| ==> PushAll(queue, more)[i] !in queue
  {
    if more != [] {
      Pushed(queue, more[..|more| - 1]);
      assert more == more[..|more| - 1] + [more[|more| - 1]];
    }
  }

  /** How far from the root each visited and each queued library was found. */
  datatype Depths = Depths(visited: map<Soinfo, nat>, queued: map<Soinfo, nat>)

  ghost predicate Ascending(s: seq<Soinfo>, depth: map<Soinfo, nat>) {
    && (forall x :: x in s ==> x in depth)
    && forall i, j :: 0 <= i < j < |s| ==> depth[s[i]] <= depth[s[j]]
  }

  /** c is visited, or queued, at no more than the given depth. */
  ghost predicate Found(visited: seq<Soinfo>, queue: seq<Soinfo>, ds: Depths, c: Soinfo, depth: nat) {
    || (c in visited && c in ds.visited && ds.visited[c] <= depth)
    || (c in queue && c in ds.queued && ds.queued[c] <= depth)
  }

  /** The queue spans at most two neighbouring depths, and nothing visited is deeper than it. */
  ghost predicate Layered(visited: seq<Soinfo>, queue: seq<Soinfo>, ds: Depths) {
    && Ascending(visited, ds.visited) && Ascending(queue, ds.queued)
    && (forall v, q :: v in visited && q in queue ==> ds.visited[v] <= ds.queued[q])
    && (forall q, r :: q in queue && r in queue ==> ds.queued[r] <= ds.queued[q] + 1)
  }

  ghost predicate Sound(
    all: set<Soinfo>, children: Soinfo -> seq<Soinfo>, act: Soinfo -> Action, root: Soinfo, s: seq<Soinfo>,
    depth: map<Soinfo, nat>) {
    Placed(AtMost(all, children, act, root), s, depth)
  }

  ghost function AtMost(
    all: set<Soinfo>, children: Soinfo -> seq<Soinfo>, act: Soinfo -> Action, root: Soinfo): (Soinfo, nat) -> bool {
    (x: Soinfo, d: nat) => x in all && x in Ball(all, children, act, root, d)
  }

  ghost predicate Placed(at: (Soinfo, nat) -> bool, s: seq<Soinfo>, depth: map<Soinfo, nat>) {
    forall x :: x in s ==> x in depth && at(x, depth[x])
  }

  /** A visited library is nowhere nearer than its depth. */
  ghost predicate Exact(
    all: set<Soinfo>, children: Soinfo -> seq<Soinfo>, act: Soinfo -> Action, root: Soinfo, visited: seq<Soinfo>,
    depth: map<Soinfo, nat>) {
    forall x, d: nat | x in visited && x in depth && d < depth[x] :: x !in Ball(all, children, act, root, d)
  }

  ghost predicate Complete(
    children: Soinfo -> seq<Soinfo>, act: Soinfo -> Action, root: Soinfo, visited: seq<Soinfo>, queue: seq<Soinfo>,
    ds: Depths)
    requires Ascending(visited, ds.visited)
  {
    && Found(visited, queue, ds, root, 0)
    && forall p, c :: p in visited && Edge(children, act, p, c) ==> Found(visited, queue, ds, c, ds.visited[p] + 1)
  }

  ghost predicate Walking(
    all: set<Soinfo>, children: Soinfo -> seq<Soinfo>, act: Soinfo -> Action, root: Soinfo, visited: seq<Soinfo>,
    queue: seq<Soinfo>, ds: Depths) {
    && Layered(visited, queue, ds)
    && Sound(all, children, act, root, visited, ds.visited) && Sound(all, children, act, root, queue, ds.queued)
    && Exact(all, children, act, root, visited, ds.visited)
    && Complete(children, act, root, visited, queue, ds)
  }

  /** Whatever is nearer than everything in the queue has been visited, at its own distance. */
  lemma {:induction false} NearIsVisited(
    all: set<Soinfo>, children: Soinfo -> seq<Soinfo>, act: Soinfo -> Action, root: Soinfo,
    visited: seq<Soinfo>, queue: seq<Soinfo>, ds: Depths, d: nat, x: Soinfo)
    requires Walking(all, children, act, root, visited, queue, ds)
    requires forall q :: q in queue ==> d < ds.queued[q]
    requires x in Ball(all, children, act, root, d)
    ensures x in visited && ds.visited[x] <= d
  {
    if d > 0 {
      if x in Ball(all, children, act, root, d - 1) {
        NearIsVisited(all, children, act, root, visited, queue, ds, d - 1, x);
      } else {
        var p :| p in Ball(all, children, act, root, d - 1) && Edge(children, act, p, x);
        NearIsVisited(all, children, act, root, visited, queue, ds, d - 1, p);
        assert Found(visited, queue, ds, x, ds.visited[p] + 1);
      }
    }
  }

  /** The queue's first entry was visited earlier: it can go. */
  lemma DropFirst(
    all: set<Soinfo>, children: Soinfo -> seq<Soinfo>, act: Soinfo -> Action, root: Soinfo,
    visited: seq<Soinfo>, queue: seq<Soinfo>, ds: Depths)
    requires Walking(all, children, act, root, visited, queue, ds)
    requires queue != [] && queue[0] in visited
    ensures Walking(all, children, act, root, visited, queue[1..], ds)
  {
    assert forall c, d: nat :: Found(visited, queue, ds, c, d) ==> Found(visited, queue[1..], ds, c, d);
  }

  ghost function After(queue: seq<Soinfo>, more: seq<Soinfo>, ds: Depths): Depths
    requires queue != [] && forall x :: x in queue ==> x in ds.queued
  {
    var x, d := queue[0], ds.queued[queue[0]];
    var rest := queue[1..];
    Depths(ds.visited[x := d],
           map q | q in PushAll(rest, more) :: if q in rest then ds.queued[q] else d + 1)
  }

  lemma RestDepth(queue: seq<Soinfo>, depth: map<Soinfo, nat>, q: Soinfo)
    requires queue != [] && Ascending(queue, depth) && q in queue[1..]
    ensures q in queue && depth[queue[0]] <= depth[q]
  {
    var i :| 0 <= i < |queue[1..]| && queue[1..][i] == q;
    assert queue[i + 1] == q;
  }

  /** After a push, what was queued keeps its depth and what is new lies one below the first. */
  lemma {:induction false} NewDepths(queue: seq<Soinfo>, more: seq<Soinfo>, ds: Depths)
    requires queue != [] && Ascending(queue, ds.queued)
    requires forall q, r :: q in queue && r in queue ==> ds.queued[r] <= ds.queued[q] + 1
    ensures Ascending(PushAll(queue[1..], more), After(queue, more, ds).queued)
    ensures forall q :: q in PushAll(queue[1..], more) ==>
              ds.queued[queue[0]] <= After(queue, more, ds).queued[q] <= ds.queued[queue[0]] + 1
  {
    var d, rest := ds.queued[queue[0]], queue[1..];
    var longer, depth := PushAll(rest, more), After(queue, more, ds).queued;
    Pushed(rest, more);
    forall q | q in rest ensures d <= ds.queued[q] <= d + 1 {
      RestDepth(queue, ds.queued, q);
    }
    forall i, j | 0 <= i < j < |longer| ensures depth[longer[i]] <= depth[longer[j]] {
      if j < |rest| {
        assert longer[i] == rest[i] == queue[i + 1] && longer[j] == rest[j] == queue[j + 1];
      } else {
        assert longer[j] !in rest;
      }
    }
  }

  lemma StaysLayered(visited: seq<Soinfo>, queue: seq<Soinfo>, more: seq<Soinfo>, ds: Depths)
    requires Layered(visited, queue, ds) && queue != [] && queue[0] !in visited
    ensures Layered(visited + [queue[0]], PushAll(queue[1..], more), After(queue, more, ds))
  {
    NewDepths(queue, more, ds);
    VisitedDepths(visited, queue[0], ds.queued[queue[0]], ds.visited);
  }

  lemma VisitedDepths(visited: seq<Soinfo>, x: Soinfo, d: nat, depth: map<Soinfo, nat>)
    requires Ascending(visited, depth) && x !in visited && forall v :: v in visited ==> depth[v] <= d
    ensures Ascending(visited + [x], depth[x := d])
  {
  }

  lemma {:induction false} StaysSound(
    all: set<Soinfo>, children: Soinfo -> seq<Soinfo>, act: Soinfo -> Action, root: Soinfo,
    visited: seq<Soinfo>, queue: seq<Soinfo>, more: seq<Soinfo>, ds: Depths)
    requires Closed(all, children)
    requires Sound(all, children, act, root, visited, ds.visited) && Sound(all, children, act, root, queue, ds.queued)
    requires queue != [] && forall c :: c in more ==> Edge(children, act, queue[0], c)
    ensures Sound(all, children, act, root, visited + [queue[0]], After(queue, more, ds).visited)
    ensures Sound(all, children, act, root, PushAll(queue[1..], more), After(queue, more, ds).queued)
  {
    var d := ds.queued[queue[0]];
    var at := AtMost(all, children, act, root);
    assert at(queue[0], d);
    forall c | c in more ensures at(c, d + 1) {
      OneFurther(all, children, act, root, queue[0], c, d);
    }
    StaysPlaced(at, visited, queue, more, ds);
  }

  lemma StaysPlaced(at: (Soinfo, nat) -> bool, visited: seq<Soinfo>, queue: seq<Soinfo>, more: seq<Soinfo>, ds: Depths)
    requires Placed(at, visited, ds.visited) && Placed(at, queue, ds.queued)
    requires queue != [] && forall c :: c in more ==> at(c, ds.queued[queue[0]] + 1)
    ensures Placed(at, visited + [queue[0]], After(queue, more, ds).visited)
    ensures Placed(at, PushAll(queue[1..], more), After(queue, more, ds).queued)
  {
    Pushed(queue[1..], more);
    assert forall q :: q in queue[1..] ==> q in queue;
  }

  lemma OneFurther(
    all: set<Soinfo>, children: Soinfo -> seq<Soinfo>, act: Soinfo -> Action, root: Soinfo, p: Soinfo, c: Soinfo,
      d: nat)
    requires Closed(all, children) && AtMost(all, children, act, root)(p, d) && Edge(children, act, p, c)
    ensures AtMost(all, children, act, root)(c, d + 1)
  {
  }

  lemma StaysExact(
    all: set<Soinfo>, children: Soinfo -> seq<Soinfo>, act: Soinfo -> Action, root: Soinfo,
    visited: seq<Soinfo>, queue: seq<Soinfo>, more: seq<Soinfo>, ds: Depths)
    requires Walking(all, children, act, root, visited, queue, ds)
    requires queue != [] && queue[0] !in visited
    ensures Exact(all, children, act, root, visited + [queue[0]], After(queue, more, ds).visited)
  {
    forall d: nat | d < ds.queued[queue[0]] ensures queue[0] !in Ball(all, children, act, root, d) {
      if queue[0] in Ball(all, children, act, root, d) {
        NearIsVisited(all, children, act, root, visited, queue, ds, d, queue[0]);
      }
    }
  }

  lemma StaysFound(visited: seq<Soinfo>, queue: seq<Soinfo>, more: seq<Soinfo>, ds: Depths, c: Soinfo, d: nat)
    requires queue != [] && queue[0] !in visited && forall x :: x in queue ==> x in ds.queued
    requires Found(visited, queue, ds, c, d)
    ensures Found(visited + [queue[0]], PushAll(queue[1..], more), After(queue, more, ds), c, d)
  {
    Pushed(queue[1..], more);
  }

  lemma StaysComplete(
    children: Soinfo -> seq<Soinfo>, act: Soinfo -> Action, root: Soinfo,
    visited: seq<Soinfo>, queue: seq<Soinfo>, more: seq<Soinfo>, ds: Depths)
    requires Layered(visited, queue, ds) && Complete(children, act, root, visited, queue, ds)
    requires queue != [] && queue[0] !in visited
    requires forall c :: c in more <==> Edge(children, act, queue[0], c)
    requires Ascending(visited + [queue[0]], After(queue, more, ds).visited)
    ensures Complete(children, act, root, visited + [queue[0]], PushAll(queue[1..], more), After(queue, more, ds))
  {
    var x, d, rest := queue[0], ds.queued[queue[0]], queue[1..];
    var next := After(queue, more, ds);
    StaysFound(visited, queue, more, ds, root, 0);
    forall p, c | p in visited + [x] && Edge(children, act, p, c)
      ensures Found(visited + [x], PushAll(rest, more), next, c, next.visited[p] + 1)
    {
      if p == x {
        Pushed(rest, more);
      } else {
        StaysFound(visited, queue, more, ds, c, ds.visited[p] + 1);
      }
    }
  }

  lemma VisitFirst(
    all: set<Soinfo>, children: Soinfo -> seq<Soinfo>, act: Soinfo -> Action, root: Soinfo,
    visited: seq<Soinfo>, queue: seq<Soinfo>, more: seq<Soinfo>, ds: Depths)
    requires Closed(all, children) && Walking(all, children, act, root, visited, queue, ds)
    requires queue != [] && queue[0] !in visited
    requires forall c :: c in more <==> Edge(children, act, queue[0], c)
    ensures Walking(all, children, act, root, visited + [queue[0]], PushAll(queue[1..], more), After(queue, more, ds))
  {
    StaysLayered(visited, queue, more, ds);
    StaysSound(all, children, act, root, visited, queue, more, ds);
    StaysExact(all, children, act, root, visited, queue, more, ds);
    StaysComplete(children, act, root, visited, queue, more, ds);
  }

  lemma Ordered(
    all: set<Soinfo>, children: Soinfo -> seq<Soinfo>, act: Soinfo -> Action, root: Soinfo, s: seq<Soinfo>,
    depth: map<Soinfo, nat>)
    requires Ascending(s, depth) && Sound(all, children, act, root, s, depth)
    requires Exact(all, children, act, root, s, depth)
    ensures NearestFirst(all, children, act, root, s)
  {
    forall d: nat, i, j | 0 <= i < j < |s| && s[j] in Ball(all, children, act, root, d)
      ensures s[i] in Ball(all, children, act, root, d)
    {
      Wider(all, children, act, root, depth[s[i]], d);
    }
  }

  /** With an empty queue, what was visited is what can be reached. */
  lemma AllReached(
    all: set<Soinfo>, children: Soinfo -> seq<Soinfo>, act: Soinfo -> Action, root: Soinfo, visited: seq<Soinfo>,
    ds: Depths, x: Soinfo)
    requires Walking(all, children, act, root, visited, [], ds)
    ensures x in visited <==> Reachable(all, children, act, root, x)
  {
    if x in visited {
      assert x in Ball(all, children, act, root, ds.visited[x]);
    }
    if Reachable(all, children, act, root, x) {
      var d: nat :| x in Ball(all, children, act, root, d);
      NearIsVisited(all, children, act, root, visited, [], ds, d, x);
    }
  }

  function Members(s: seq<Soinfo>): set<Soinfo> { set x | x in s }

  /** The whole walk on plain sequences: whether it ran to the end, and what the action was called on. */
  ghost function WalkFrom(
    all: set<Soinfo>, children: Soinfo -> seq<Soinfo>, act: Soinfo -> Action, visited: seq<Soinfo>, queue: seq<Soinfo>)
    : (bool, seq<Soinfo>)
    requires Closed(all, children) && Members(queue) <= all
    decreases all - Members(visited), |queue|
  {
    if queue == [] then (true, visited)
    else
      var x, rest := queue[0], queue[1..];
      if x in visited then WalkFrom(all, children, act, visited, rest)
      else if act(x) == Stop then (false, visited + [x])
      else
        assert x in all - Members(visited) && x !in all - Members(visited + [x]);
        Pushed(rest, children(x));
        WalkFrom(all, children, act, visited + [x], if act(x) == Continue then PushAll(rest, children(x)) else rest)
  }

  lemma {:induction false} WalkIsBreadthFirst(
    all: set<Soinfo>, children: Soinfo -> seq<Soinfo>, act: Soinfo -> Action, root: Soinfo,
    visited: seq<Soinfo>, queue: seq<Soinfo>, ds: Depths)
    requires Closed(all, children) && Members(queue) <= all && Walking(all, children, act, root, visited, queue, ds)
    ensures NearestFirst(all, children, act, root, WalkFrom(all, children, act, visited, queue).1)
    ensures forall x :: x in WalkFrom(all, children, act, visited, queue).1 ==> Reachable(all, children, act, root, x)
    ensures WalkFrom(all, children, act, visited, queue).0 ==>
              forall x :: Reachable(all, children, act, root, x) ==> x in WalkFrom(all, children, act, visited, queue).1
    decreases all - Members(visited), |queue|
  {
    if queue == [] {
      Conclude(all, children, act, root, visited, [], ds);
    } else if queue[0] in visited {
      DropFirst(all, children, act, root, visited, queue, ds);
      WalkIsBreadthFirst(all, children, act, root, visited, queue[1..], ds);
    } else {
      var x := queue[0];
      var more := if act(x) == Continue then children(x) else [];
      VisitFirst(all, children, act, root, visited, queue, more, ds);
      if act(x) == Stop {
        Conclude(all, children, act, root, visited + [x], PushAll(queue[1..], more), After(queue, more, ds));
      } else {
        assert x in all - Members(visited) && x !in all - Members(visited + [x]);
        Pushed(queue[1..], more);
        WalkIsBreadthFirst(all, children, act, root, visited + [x], PushAll(queue[1..], more), After(queue, more, ds));
      }
    }
  }

  lemma {:induction false} WalkVisitsOnce(
    all: set<Soinfo>, children: Soinfo -> seq<Soinfo>, act: Soinfo -> Action, visited: seq<Soinfo>, queue: seq<Soinfo>)
    requires Closed(all, children) && Members(queue) <= all
    requires NoDuplicates(visited) && forall x :: x in visited ==> act(x) != Stop
    ensures var (completed, called) := WalkFrom(all, children, act, visited, queue);
            && visited <= called && NoDuplicates(called)
            && (forall i :: 0 <= i < |called| - 1 ==> act(called[i]) != Stop)
            && (called == [] || (completed <==> act(called[|called| - 1]) != Stop))
            && (visited == [] && queue != [] ==> called != [] && called[0] == queue[0])
    decreases all - Members(visited), |queue|
  {
    if queue != [] {
      var x, rest := queue[0], queue[1..];
      if x in visited {
        WalkVisitsOnce(all, children, act, visited, rest);
      } else if act(x) != Stop {
        assert x in all - Members(visited) && x !in all - Members(visited + [x]);
        Pushed(rest, children(x));
        var more := if act(x) == Continue then PushAll(rest, children(x)) else rest;
        WalkVisitsOnce(all, children, act, visited + [x], more);
      }
    }
  }

  lemma Conclude(
    all: set<Soinfo>, children: Soinfo -> seq<Soinfo>, act: Soinfo -> Action, root: Soinfo,
    called: seq<Soinfo>, queue: seq<Soinfo>, ds: Depths)
    requires Walking(all, children, act, root, called, queue, ds)
    ensures NearestFirst(all, children, act, root, called)
    ensures forall x :: x in called ==> Reachable(all, children, act, root, x)
    ensures queue == [] ==> forall x :: Reachable(all, children, act, root, x) ==> x in called
  {
    Ordered(all, children, act, root, called, ds.visited);
    forall x | x in called ensures Reachable(all, children, act, root, x) {
      assert x in Ball(all, children, act, root, ds.visited[x]);
    }
    if queue == [] {
      forall x | Reachable(all, children, act, root, x) ensures x in called {
        AllReached(all, children, act, root, called, ds, x);
      }
    }
  }

  lemma WalkFromRoot(all: set<Soinfo>, children: Soinfo -> seq<Soinfo>, act: Soinfo -> Action, root: Soinfo)
    requires Closed(all, children) && root in all
    ensures var (completed, called) := WalkFrom(all, children, act, [], [root]);
            && NoDuplicates(called) && called != [] && called[0] == root
            && NearestFirst(all, children, act, root, called)
            && (forall x :: x in called ==> Reachable(all, children, act, root, x))
            && (completed ==> forall x :: Reachable(all, children, act, root, x) ==> x in called)
            && (completed <==> forall x :: x in called ==> act(x) != Stop)
            && forall i :: 0 <= i < |called| - 1 ==> act(called[i]) != Stop
  {
    var ds := Depths(map[], map[root := 0]);
    assert root in Ball(all, children, act, root, 0);
    WalkIsBreadthFirst(all, children, act, root, [], [root], ds);
    WalkVisitsOnce(all, children, act, [], [root]);
  }

  /**
   * Calls the action on one library after another; `called` is what it was called on, in order.
   * Dependencies form any finite graph, cycles included.
   */
  method WalkDependenciesTree(
    root: Soinfo, children: Soinfo -> seq<Soinfo>, act: Soinfo -> Action, ghost all: set<Soinfo>)
    returns (completed: bool, called: seq<Soinfo>)
    requires Closed(all, children) && root in all
    ensures (completed, called) == WalkFrom(all, children, act, [], [root])
    ensures NoDuplicates(called) && called != [] && called[0] == root
    ensures NearestFirst(all, children, act, root, called)
    ensures forall x :: x in called ==> Reachable(all, children, act, root, x)
    ensures completed ==> forall x :: Reachable(all, children, act, root, x) ==> x in called
    ensures completed <==> forall x :: x in called ==> act(x) != Stop
    ensures forall i :: 0 <= i < |called| - 1 ==> act(called[i]) != Stop
  {
    WalkFromRoot(all, children, act, root);
    completed, called := WalkLists(root, children, act, all);
  }

  /** The walk on the two linked lists. */
  method WalkLists(root: Soinfo, children: Soinfo -> seq<Soinfo>, act: Soinfo -> Action, ghost all: set<Soinfo>)
    returns (completed: bool, called: seq<Soinfo>)
    requires Closed(all, children) && root in all
    ensures (completed, called) == WalkFrom(all, children, act, [], [root])
  {
    var visitList, visited;
    ghost var owned;
    visitList, visited, owned := Started(root);
    called := [];
    while true
      invariant (forall o :: o in owned ==> fresh(o)) && Separate(visitList, visited, owned)
      invariant visited.Contents() == called
      invariant Members(visitList.Contents()) <= all
      invariant WalkFrom(all, children, act, called, visitList.Contents()) == WalkFrom(all, children, act, [], [root])
      decreases all - Members(called), |visitList.Contents()|
    {
      ghost var queue := visitList.Contents();
      var si, again := Next(visitList, visited, owned);
      if si.None? {
        return true, called;
      }
      if again {
        continue;
      }
      var result := act(si.value);
      if result == Stop {
        return false, called + [si.value];
      }
      var more := if result == Continue then children(si.value) else [];
      owned := Settle(visitList, visited, si.value, more, owned);
      Narrower(all, children, called, queue, more);
      called := called + [si.value];
    }
  }

  /** An empty list of visited libraries, and a queue holding the root. */
  method Started(root: Soinfo)
    returns (visitList: LinkedList<Soinfo>, visited: LinkedList<Soinfo>, ghost owned: set<object>)
    ensures Separate(visitList, visited, owned) && visitList.Contents() == [root] && visited.Contents() == []
    ensures forall o :: o in owned ==> fresh(o)
  {
    visitList := new LinkedList<Soinfo>();
    visited := new LinkedList<Soinfo>();
    visitList.PushBack(root);
    owned := Own(visitList) + Own(visited);
  }

  lemma Narrower(
    all: set<Soinfo>, children: Soinfo -> seq<Soinfo>, visited: seq<Soinfo>, queue: seq<Soinfo>, more: seq<Soinfo>)
    requires Closed(all, children) && Members(queue) <= all && queue != [] && queue[0] !in visited
    requires more <= children(queue[0])
    ensures all - Members(visited + [queue[0]]) < all - Members(visited)
    ensures Members(PushAll(queue[1..], more)) <= all
  {
    assert queue[0] in all - Members(visited) && queue[0] !in all - Members(visited + [queue[0]]);
    Pushed(queue[1..], more);
    forall x | x in PushAll(queue[1..], more) ensures x in all {
      if x !in queue[1..] {
        assert x in more && x in children(queue[0]);
      }
    }
  }

  /** Two lists with no entry in common; `owned` covers them and their entries. */
  ghost predicate Separate(a: LinkedList<Soinfo>, b: LinkedList<Soinfo>, owned: set<object>)
    reads a, b, a.entries, b.entries
  {
    a.Valid() && b.Valid() && Own(a) !! Own(b) && Own(a) + Own(b) <= owned
  }

  /** The list and its entries. */
  ghost function Own(list: LinkedList<Soinfo>): set<object>
    reads list
  {
    var nodes: set<object> := set e: Entry<Soinfo> | e in list.entries;
    {list} + nodes
  }

  /** The first queued library, which leaves the queue, and whether it was visited before. */
  method Next(
    visitList: LinkedList<Soinfo>, visited: LinkedList<Soinfo>, ghost owned: set<object>)
    returns (si: Option<Soinfo>, again: bool)
    requires Separate(visitList, visited, owned)
    modifies visitList
    ensures Separate(visitList, visited, owned) && visited.Contents() == old(visited.Contents())
    ensures old(visitList.Contents()) == [] ==> si.None? && visitList.Contents() == []
    ensures old(visitList.Contents()) != [] ==>
              && si == Some(old(visitList.Contents())[0]) && visitList.Contents() == old(visitList.Contents())[1..]
              && (again <==> si.value in visited.Contents())
  {
    si := visitList.PopFront();
    again := false;
    if si.Some? {
      again := visited.Contains(si.value);
    }
  }

  /** A library is done with: it becomes visited, and the libraries it leads to are queued. */
  method Settle(
    visitList: LinkedList<Soinfo>, visited: LinkedList<Soinfo>, x: Soinfo, more: seq<Soinfo>, ghost owned: set<object>)
    returns (ghost now: set<object>)
    requires Separate(visitList, visited, owned) && x !in visited.Contents()
    modifies owned
    ensures (forall o :: o in now ==> o in owned || fresh(o)) && Separate(visitList, visited, now)
    ensures visited.Contents() == old(visited.Contents()) + [x]
    ensures visitList.Contents() == PushAll(old(visitList.Contents()), more)
  {
    Push(visited, x);
    assert visitList.Valid();
    Enqueue(visitList, more);
    now := owned + Own(visitList) + Own(visited);
  }

  method Push(list: LinkedList<Soinfo>, x: Soinfo)
    requires list.Valid()
    modifies Own(list)
    ensures list.Valid()
    ensures list.Contents() == if x in old(list.Contents()) then old(list.Contents()) else old(list.Contents()) + [x]
    ensures fresh(Own(list) - old(Own(list)))
  {
    assert list.tail != null ==> list.tail in list.entries;
    list.PushBack(x);
  }

  /** The children's for_each: every one is pushed to the back of the list. */
  method Enqueue(list: LinkedList<Soinfo>, more: seq<Soinfo>)
    requires list.Valid()
    modifies Own(list)
    ensures list.Valid() && list.Contents() == PushAll(old(list.Contents()), more)
    ensures fresh(Own(list) - old(Own(list)))
  {
    for i := 0 to |more|
      invariant list.Valid() && list.Contents() == PushAll(old(list.Contents()), more[..i])
      invariant fresh(Own(list) - old(Own(list)))
    {
      assert more[..i + 1][..i] == more[..i];
      Push(list, more[i]);
    }
    assert more[..|more|] == more;
  }

  /** From API 24 on only what the root's namespace can access is collected, and nothing is reached through the rest. */
  function Kept(api: int, accessible: Soinfo -> bool): Soinfo -> bool {
    (x: Soinfo) => api < API_N || accessible(x)
  }

  function Collecting(keep: Soinfo -> bool): Soinfo -> Action {
    (x: Soinfo) => if keep(x) then Continue else Skip
  }

  /** What is reached from the root in at most d steps with every library on the way kept, the ends included. */
  ghost function KeptBall(
    all: set<Soinfo>, children: Soinfo -> seq<Soinfo>, keep: Soinfo -> bool, root: Soinfo, d: nat): set<Soinfo> {
    if d == 0 then if keep(root) then {root} else {}
    else
      var inner := KeptBall(all, children, keep, root, d - 1);
      inner + set c | c in all && keep(c) && exists p :: p in inner && c in children(p)
  }

  ghost predicate KeptReachable(
    all: set<Soinfo>, children: Soinfo -> seq<Soinfo>, keep: Soinfo -> bool, root: Soinfo, x: Soinfo) {
    exists d: nat :: x in KeptBall(all, children, keep, root, d)
  }

  lemma {:induction false} KeptIsWalked(
    all: set<Soinfo>, children: Soinfo -> seq<Soinfo>, keep: Soinfo -> bool, root: Soinfo, d: nat, x: Soinfo)
    ensures x in KeptBall(all, children, keep, root, d) <==>
              x in Ball(all, children, Collecting(keep), root, d) && keep(x)
  {
    if d > 0 {
      KeptIsWalked(all, children, keep, root, d - 1, x);
      forall p ensures p in KeptBall(all, children, keep, root, d - 1)
                       <==> p in Ball(all, children, Collecting(keep), root, d - 1) && keep(p) {
        KeptIsWalked(all, children, keep, root, d - 1, p);
      }
      if x in all && keep(x) {
        forall p ensures (p in KeptBall(all, children, keep, root, d - 1) && x in children(p))
                         <==> (p in Ball(all, children, Collecting(keep), root, d - 1)
                               && Edge(children, Collecting(keep), p, x)) {
        }
      }
    }
  }

  lemma {:induction false} FilterKeeps(s: seq<Soinfo>, keep: Soinfo -> bool)
    requires NoDuplicates(s)
    ensures NoDuplicates(Filter(s, keep, true))
    ensures forall x :: x in Filter(s, keep, true) <==> x in s && keep(x)
    ensures s != [] && keep(s[0]) ==> Filter(s, keep, true) != [] && Filter(s, keep, true)[0] == s[0]
  {
    if s != [] {
      FilterKeeps(s[..|s| - 1], keep);
      assert s == s[..|s| - 1] + [s[|s| - 1]];
    }
  }

  lemma {:induction false} FilterOrdered(
    all: set<Soinfo>, children: Soinfo -> seq<Soinfo>, act: Soinfo -> Action, root: Soinfo, s: seq<Soinfo>,
    keep: Soinfo -> bool)
    requires NearestFirst(all, children, act, root, s)
    ensures NearestFirst(all, children, act, root, Filter(s, keep, true))
  {
    if s != [] {
      var front, last := s[..|s| - 1], s[|s| - 1];
      FilterOrdered(all, children, act, root, front, keep);
      var f := Filter(front, keep, true);
      FilterMembers(front, keep);
      forall d: nat, i | 0 <= i < |f| && last in Ball(all, children, act, root, d)
        ensures f[i] in Ball(all, children, act, root, d)
      {
        assert f[i] in front;
        var k :| 0 <= k < |front| && front[k] == f[i];
        assert s[k] == f[i] && s[|s| - 1] == last;
      }
    }
  }

  lemma {:induction false} FilterMembers(s: seq<Soinfo>, keep: Soinfo -> bool)
    ensures forall x :: x in Filter(s, keep, true) ==> x in s
  {
    if s != [] {
      FilterMembers(s[..|s| - 1], keep);
    }
  }

  /** A way from the root to x, from each library to one of its children. */
  ghost predicate Path(children: Soinfo -> seq<Soinfo>, root: Soinfo, x: Soinfo, path: seq<Soinfo>) {
    && path != [] && path[0] == root && path[|path| - 1] == x
    && forall k :: 0 <= k < |path| - 1 ==> path[k + 1] in children(path[k])
  }

  /** All libraries on the way are accessible, the ends included; before API 24 that does not matter. */
  ghost predicate AllowedPath(
    api: int, accessible: Soinfo -> bool, children: Soinfo -> seq<Soinfo>, root: Soinfo, x: Soinfo, path: seq<Soinfo>) {
    Path(children, root, x, path) && (api >= 24 ==> forall k :: 0 <= k < |path| ==> accessible(path[k]))
  }

  ghost predicate Leads(
    api: int, accessible: Soinfo -> bool, children: Soinfo -> seq<Soinfo>, root: Soinfo, x: Soinfo) {
    exists path :: AllowedPath(api, accessible, children, root, x, path)
  }

  ghost predicate LeadsWithin(
    api: int, accessible: Soinfo -> bool, children: Soinfo -> seq<Soinfo>, root: Soinfo, x: Soinfo, n: nat) {
    exists path :: AllowedPath(api, accessible, children, root, x, path) && |path| <= n
  }

  /** No library stands before one that a shorter path leads to. */
  ghost predicate ShortestFirst(
    api: int, accessible: Soinfo -> bool, children: Soinfo -> seq<Soinfo>, root: Soinfo, s: seq<Soinfo>) {
    forall i, j, n: nat | 0 <= i < j < |s| && LeadsWithin(api, accessible, children, root, s[j], n) ::
      LeadsWithin(api, accessible, children, root, s[i], n)
  }

  /** What is kept within d steps is what an allowed path of no more steps leads to. */
  lemma KeptByPath(
    all: set<Soinfo>, children: Soinfo -> seq<Soinfo>, api: int, accessible: Soinfo -> bool, root: Soinfo, d: nat,
    x: Soinfo)
    requires Closed(all, children) && root in all
    ensures x in KeptBall(all, children, Kept(api, accessible), root, d)
       <==> LeadsWithin(api, accessible, children, root, x, d + 1)
  {
    if x in KeptBall(all, children, Kept(api, accessible), root, d) {
      var path := PathTo(all, children, api, accessible, root, d, x);
    }
    if LeadsWithin(api, accessible, children, root, x, d + 1) {
      var path :| AllowedPath(api, accessible, children, root, x, path) && |path| <= d + 1;
      PathKept(all, children, api, accessible, root, d, x, path);
    }
  }

  lemma {:induction false} PathTo(
    all: set<Soinfo>, children: Soinfo -> seq<Soinfo>, api: int, accessible: Soinfo -> bool, root: Soinfo, d: nat,
    x: Soinfo)
    returns (path: seq<Soinfo>)
    requires x in KeptBall(all, children, Kept(api, accessible), root, d)
    ensures AllowedPath(api, accessible, children, root, x, path) && |path| <= d + 1
    decreases d
  {
    var keep := Kept(api, accessible);
    if d == 0 {
      return [root];
    }
    if x in KeptBall(all, children, keep, root, d - 1) {
      path := PathTo(all, children, api, accessible, root, d - 1, x);
    } else {
      var p :| p in KeptBall(all, children, keep, root, d - 1) && x in children(p);
      var before := PathTo(all, children, api, accessible, root, d - 1, p);
      path := before + [x];
    }
  }

  lemma {:induction false} PathKept(
    all: set<Soinfo>, children: Soinfo -> seq<Soinfo>, api: int, accessible: Soinfo -> bool, root: Soinfo, d: nat,
    x: Soinfo, path: seq<Soinfo>)
    requires Closed(all, children) && root in all
    requires AllowedPath(api, accessible, children, root, x, path) && |path| <= d + 1
    ensures x in KeptBall(all, children, Kept(api, accessible), root, d) && x in all
    decreases |path|
  {
    if |path| == 1 {
      KeptWider(all, children, Kept(api, accessible), root, 0, d);
    } else {
      var before := path[..|path| - 1];
      var p := before[|before| - 1];
      PathKept(all, children, api, accessible, root, d - 1, p, before);
      assert path[|path| - 2 + 1] in children(path[|path| - 2]);
    }
  }

  lemma {:induction false} KeptWider(
    all: set<Soinfo>, children: Soinfo -> seq<Soinfo>, keep: Soinfo -> bool, root: Soinfo, d: nat, e: nat)
    requires d <= e
    ensures KeptBall(all, children, keep, root, d) <= KeptBall(all, children, keep, root, e)
  {
    if d < e {
      KeptWider(all, children, keep, root, d, e - 1);
    }
  }

  /** The group is what allowed paths lead to, along shorter ones first. */
  lemma GroupByPaths(
    all: set<Soinfo>, children: Soinfo -> seq<Soinfo>, api: int, accessible: Soinfo -> bool, root: Soinfo,
    group: seq<Soinfo>)
    requires Closed(all, children) && root in all
    requires forall x :: x in group <==> KeptReachable(all, children, Kept(api, accessible), root, x)
    requires NearestFirst(all, children, Collecting(Kept(api, accessible)), root, group)
    ensures forall x :: x in group <==> Leads(api, accessible, children, root, x)
    ensures ShortestFirst(api, accessible, children, root, group)
  {
    forall x
      ensures x in group <==> Leads(api, accessible, children, root, x)
    {
      ReachedByPath(all, children, api, accessible, root, x);
    }
    forall i, j, n: nat | 0 <= i < j < |group| && LeadsWithin(api, accessible, children, root, group[j], n)
      ensures LeadsWithin(api, accessible, children, root, group[i], n)
    {
      assert group[i] in group;
      NoShorterPath(all, children, api, accessible, root, group, i, j, n);
    }
  }

  lemma ReachedByPath(
    all: set<Soinfo>, children: Soinfo -> seq<Soinfo>, api: int, accessible: Soinfo -> bool, root: Soinfo, x: Soinfo)
    requires Closed(all, children) && root in all
    ensures KeptReachable(all, children, Kept(api, accessible), root, x) <==>
              Leads(api, accessible, children, root, x)
  {
    if KeptReachable(all, children, Kept(api, accessible), root, x) {
      var d: nat :| x in KeptBall(all, children, Kept(api, accessible), root, d);
      KeptByPath(all, children, api, accessible, root, d, x);
    }
    if Leads(api, accessible, children, root, x) {
      var path :| AllowedPath(api, accessible, children, root, x, path);
      PathKept(all, children, api, accessible, root, |path| - 1, x, path);
    }
  }

  lemma NoShorterPath(
    all: set<Soinfo>, children: Soinfo -> seq<Soinfo>, api: int, accessible: Soinfo -> bool, root: Soinfo,
    group: seq<Soinfo>, i: nat, j: nat, n: nat)
    requires Closed(all, children) && root in all && i < j < |group|
    requires KeptReachable(all, children, Kept(api, accessible), root, group[i])
    requires NearestFirst(all, children, Collecting(Kept(api, accessible)), root, group)
    requires LeadsWithin(api, accessible, children, root, group[j], n)
    ensures LeadsWithin(api, accessible, children, root, group[i], n)
  {
    var keep := Kept(api, accessible);
    var d := n - 1;
    KeptByPath(all, children, api, accessible, root, d, group[j]);
    KeptIsWalked(all, children, keep, root, d, group[j]);
    assert group[i] in Ball(all, children, Collecting(keep), root, d);
    KeptIsReached(all, children, keep, root, group[i]);
    KeptIsWalked(all, children, keep, root, d, group[i]);
    KeptByPath(all, children, api, accessible, root, d, group[i]);
  }

  /** The libraries a library's symbols are looked up in: itself first, then what it depends on, nearest first. */
  method GetSoinfoLocalGroup(
    root: Soinfo, children: Soinfo -> seq<Soinfo>, api: int, accessible: Soinfo -> bool, ghost all: set<Soinfo>)
    returns (group: LinkedList<Soinfo>)
    requires Closed(all, children) && root in all
    ensures group.Valid() && NoDuplicates(group.Contents())
    ensures forall x :: x in group.Contents() <==> KeptReachable(all, children, Kept(api, accessible), root, x)
    ensures NearestFirst(all, children, Collecting(Kept(api, accessible)), root, group.Contents())
    ensures Kept(api, accessible)(root) ==> group.Contents() != [] && group.Contents()[0] == root
    ensures !Kept(api, accessible)(root) ==> group.Contents() == []
    ensures forall x :: x in group.Contents() <==> Leads(api, accessible, children, root, x)
    ensures ShortestFirst(api, accessible, children, root, group.Contents())
    ensures api < 24 || accessible(root) ==> group.Contents() != [] && group.Contents()[0] == root
    ensures api >= 24 && !accessible(root) ==> group.Contents() == []
  {
    var keep := Kept(api, accessible);
    var completed, called := WalkDependenciesTree(root, children, Collecting(keep), all);
    group := Collect(called, keep);
    LocalGroup(all, children, keep, root, called);
    GroupByPaths(all, children, api, accessible, root, group.Contents());
  }

  lemma LocalGroup(
    all: set<Soinfo>, children: Soinfo -> seq<Soinfo>, keep: Soinfo -> bool, root: Soinfo, called: seq<Soinfo>)
    requires NoDuplicates(called) && called != [] && called[0] == root
    requires NearestFirst(all, children, Collecting(keep), root, called)
    requires forall x :: x in called <==> Reachable(all, children, Collecting(keep), root, x)
    ensures forall x :: x in Filter(called, keep, true) <==> KeptReachable(all, children, keep, root, x)
    ensures NearestFirst(all, children, Collecting(keep), root, Filter(called, keep, true))
    ensures NoDuplicates(Filter(called, keep, true))
    ensures keep(root) ==> Filter(called, keep, true) != [] && Filter(called, keep, true)[0] == root
    ensures !keep(root) ==> Filter(called, keep, true) == []
  {
    FilterKeeps(called, keep);
    FilterOrdered(all, children, Collecting(keep), root, called, keep);
    forall x
      ensures KeptReachable(all, children, keep, root, x) <==>
                Reachable(all, children, Collecting(keep), root, x) && keep(x)
    {
      KeptIsReached(all, children, keep, root, x);
    }
    if Filter(called, keep, true) != [] {
      var x := Filter(called, keep, true)[0];
      assert KeptReachable(all, children, keep, root, x);
      var d: nat :| x in KeptBall(all, children, keep, root, d);
      if !keep(root) {
        NothingKept(all, children, keep, root, d);
      }
    }
  }

  lemma KeptIsReached(all: set<Soinfo>, children: Soinfo -> seq<Soinfo>, keep: Soinfo -> bool, root: Soinfo, x: Soinfo)
    ensures KeptReachable(all, children, keep, root, x) <==>
              Reachable(all, children, Collecting(keep), root, x) && keep(x)
  {
    if KeptReachable(all, children, keep, root, x) {
      var d: nat :| x in KeptBall(all, children, keep, root, d);
      KeptIsWalked(all, children, keep, root, d, x);
    }
    if Reachable(all, children, Collecting(keep), root, x) {
      var d: nat :| x in Ball(all, children, Collecting(keep), root, d);
      KeptIsWalked(all, children, keep, root, d, x);
    }
  }

  lemma {:induction false} NothingKept(
    all: set<Soinfo>, children: Soinfo -> seq<Soinfo>, keep: Soinfo -> bool, root: Soinfo, d: nat)
    requires !keep(root)
    ensures KeptBall(all, children, keep, root, d) == {}
  {
    if d > 0 {
      NothingKept(all, children, keep, root, d - 1);
    }
  }

  /** What the action of the walk pushes on the group, call by call. */
  method Collect(called: seq<Soinfo>, keep: Soinfo -> bool) returns (group: LinkedList<Soinfo>)
    requires NoDuplicates(called)
    ensures group.Valid() && group.Contents() == Filter(called, keep, true) && fresh(Own(group))
  {
    group := new LinkedList<Soinfo>();
    for i := 0 to |called|
      invariant group.Valid() && group.Contents() == Filter(called[..i], keep, true) && fresh(Own(group))
    {
      assert called[..i + 1][..i] == called[..i];
      FilterMembers(called[..i], keep);
      if keep(called[i]) {
        Push(group, called[i]);
      }
    }
    assert called[..|called|] == called;
  }
}
