/** The breadth-first walk of the study script: the root is enqueued, then
    each dequeued node's children are marked visited and enqueued, unless a
    child was already marked. Nodes are identified by their position in the
    graph, never by name: two distinct nodes may share a name. */
module Traversal {
  import opened Queues

  /** A script `Node`: its name and its children, as positions in the graph.
      The `visited` flag of each node is kept in a separate sequence. */
  datatype Node = Node(name: string, children: seq<nat>)

  type Graph = seq<Node>

  /** Every child reference names a node of the graph, as an object
      reference always does. */
  predicate ValidGraph(g: Graph) {
    forall u, k | 0 <= u < |g| && 0 <= k < |g[u].children| :: g[u].children[k] < |g|
  }

  /** `p` follows child links from `p[0]` to its last node. */
  ghost predicate IsWalk(g: Graph, p: seq<nat>) {
    |p| >= 1
    && (forall i | 0 <= i < |p| :: p[i] < |g|)
    && (forall i | 0 <= i < |p| - 1 :: p[i + 1] in g[p[i]].children)
  }

  /** `v` is reached from `u` by following at least one child link. */
  ghost predicate Reaches(g: Graph, u: nat, v: nat) {
    exists p :: IsWalk(g, p) && |p| >= 2 && p[0] == u && p[|p| - 1] == v
  }

  /** The number of nodes not yet marked. */
  function Unvisited(visited: seq<bool>): (n: nat)
    ensures n <= |visited|
  {
    if visited == [] then 0
    else Unvisited(visited[..|visited| - 1]) + (if visited[|visited| - 1] then 0 else 1)
  }

  /** Marking an unmarked node leaves one node fewer unmarked. */
  lemma {:induction false} MarkOne(visited: seq<bool>, v: nat)
    requires v < |visited| && !visited[v]
    ensures Unvisited(visited[v := true]) == Unvisited(visited) - 1
    decreases |visited|
  {
    var n := |visited| - 1;
    var w := visited[v := true];
    assert w[..n] == if v < n then visited[..n][v := true] else visited[..n];
    if v < n {
      MarkOne(visited[..n], v);
    }
  }

  /** One more child link extends a walk from the root. */
  lemma ReachesStep(g: Graph, root: nat, u: nat, v: nat)
    requires root < |g| && u < |g| && v < |g| && v in g[u].children
    requires u == root || Reaches(g, root, u)
    ensures Reaches(g, root, v)
  {
    if u == root {
      assert IsWalk(g, [root, v]);
    } else {
      var p :| IsWalk(g, p) && |p| >= 2 && p[0] == root && p[|p| - 1] == u;
      var p' := p + [v];
      assert IsWalk(g, p');
    }
  }

  /** When every child of every node in `closed` is marked and every marked
      node is in `closed`, every node after the first on a walk from a node
      of `closed` is marked. */
  lemma {:induction false} WalkMarked(g: Graph, visited: seq<bool>, closed: seq<nat>, p: seq<nat>)
    requires |visited| == |g| && IsWalk(g, p) && p[0] in closed
    requires forall u, c | u in closed && 0 <= u < |g| && c in g[u].children :: c < |g| && visited[c]
    requires forall v | 0 <= v < |g| && visited[v] :: v in closed
    ensures forall i | 1 <= i < |p| :: visited[p[i]]
    decreases |p|
  {
    if |p| >= 2 {
      var q := p[..|p| - 1];
      assert IsWalk(g, q);
      WalkMarked(g, visited, closed, q);
      var n := |p| - 1;
      assert p[n] in g[p[n - 1]].children;
      assert p[n - 1] in closed by {
        if n - 1 >= 1 { assert visited[q[n - 1]]; }
      }
    }
  }

  /** A node that is no node's child is never reached. */
  lemma NeverAChild(g: Graph, root: nat, v: nat)
    requires forall u | 0 <= u < |g| :: v !in g[u].children
    ensures !Reaches(g, root, v)
  {
    forall p | IsWalk(g, p) && |p| >= 2 && p[0] == root
      ensures p[|p| - 1] != v
    {
      assert p[|p| - 1] in g[p[|p| - 2]].children;
    }
  }

  /** The bookkeeping of the walk: `marked` lists the nodes whose flag has
      been set, in marking order, each once; the flags are set on exactly
      those nodes, and each of them is reachable from the root. */
  ghost predicate MarkedOnce(g: Graph, root: nat, visited: seq<bool>, marked: seq<nat>) {
    |visited| == |g|
    && (forall i | 0 <= i < |marked| :: marked[i] < |g|)
    && (forall i, j | 0 <= i < j < |marked| :: marked[i] != marked[j])
    && (forall v | 0 <= v < |g| :: visited[v] <==> v in marked)
    && (forall v | 0 <= v < |g| && visited[v] :: Reaches(g, root, v))
  }

  /** Every child of every node in `done` is marked. */
  ghost predicate ChildrenMarked(g: Graph, visited: seq<bool>, done: seq<nat>) {
    |visited| == |g|
    && forall u, c | u in done && 0 <= u < |g| && c in g[u].children :: c < |g| && visited[c]
  }

  lemma ChildrenMarkedExtend(g: Graph, visited: seq<bool>, visited': seq<bool>, done: seq<nat>, cnode: nat)
    requires ChildrenMarked(g, visited, done) && |visited'| == |g| && cnode < |g|
    requires forall v | 0 <= v < |g| && visited[v] :: visited'[v]
    requires forall c | c in g[cnode].children :: c < |g| && visited'[c]
    ensures ChildrenMarked(g, visited', done + [cnode])
  {
    forall u, c | u in done + [cnode] && 0 <= u < |g| && c in g[u].children
      ensures c < |g| && visited'[c]
    {
      assert u in done || u == cnode;
      if u != cnode {
        ChildOfDoneMarked(g, visited, done, u, c);
      }
    }
  }

  lemma ChildOfDoneMarked(g: Graph, visited: seq<bool>, done: seq<nat>, u: nat, c: nat)
    requires ChildrenMarked(g, visited, done)
    requires u in done && u < |g| && c in g[u].children
    ensures c < |g| && visited[c]
  {
  }

  /** Setting the flag of an unmarked, reachable node and recording it keeps
      the bookkeeping. */
  lemma MarkStep(g: Graph, root: nat, visited: seq<bool>, marked: seq<nat>, child: nat)
    requires MarkedOnce(g, root, visited, marked)
    requires child < |g| && !visited[child] && Reaches(g, root, child)
    ensures MarkedOnce(g, root, visited[child := true], marked + [child])
  {
    var visited' := visited[child := true];
    var marked' := marked + [child];
    assert child !in marked;
    forall v | 0 <= v < |g| ensures visited'[v] <==> v in marked' {
      assert v in marked' <==> v in marked || v == child;
    }
  }

  /** The front of the queue is the root or a marked node, hence reachable. */
  lemma FrontIsReachable(g: Graph, root: nat, visited: seq<bool>, marked: seq<nat>, done: seq<nat>, queued: seq<nat>)
    requires root < |g| && MarkedOnce(g, root, visited, marked)
    requires done + queued == [root] + marked && queued != []
    ensures queued[0] < |g| && (queued[0] == root || Reaches(g, root, queued[0]))
  {
    assert queued[0] == ([root] + marked)[|done|];
  }

  /** Dequeuing `cnode` moves it from the queue to the dequeued list, and the
      newly marked nodes join the back of the queue. */
  lemma QueueBookkeeping(done: seq<nat>, cnode: nat, rest: seq<nat>, queued: seq<nat>,
                         root: nat, marked0: seq<nat>, marked: seq<nat>)
    requires done + ([cnode] + rest) == [root] + marked0
    requires |marked0| <= |marked| && marked[..|marked0|] == marked0
    requires queued == rest + marked[|marked0|..]
    ensures (done + [cnode]) + queued == [root] + marked
  {
    var added := marked[|marked0|..];
    assert marked == marked0 + added;
    assert (done + [cnode]) + (rest + added) == (done + ([cnode] + rest)) + added;
  }

  /** At the end of the walk, with every dequeued node's children marked,
      every node reachable from the root is marked. */
  lemma ReachableMarked(g: Graph, root: nat, visited: seq<bool>, done: seq<nat>)
    requires ChildrenMarked(g, visited, done) && root in done
    requires forall v | 0 <= v < |g| && visited[v] :: v in done
    ensures forall v | 0 <= v < |g| && Reaches(g, root, v) :: visited[v]
  {
    forall v | 0 <= v < |g| && Reaches(g, root, v) ensures visited[v] {
      var p :| IsWalk(g, p) && |p| >= 2 && p[0] == root && p[|p| - 1] == v;
      WalkMarked(g, visited, done, p);
    }
  }

  /** One child of the dequeued node: if its flag is clear, the flag is set
      and the child is enqueued (and recorded as marked); otherwise nothing
      changes. Either way the child ends up marked. */
  method VisitChild(g: Graph, root: nat, cnode: nat, child: nat, visited: seq<bool>, q: Queue<nat>, ghost marked: seq<nat>)
    returns (visited': seq<bool>, q': Queue<nat>, ghost marked': seq<nat>)
    requires root < |g| && cnode < |g| && child < |g| && child in g[cnode].children
    requires cnode == root || Reaches(g, root, cnode)
    requires MarkedOnce(g, root, visited, marked)
    ensures MarkedOnce(g, root, visited', marked') && visited'[child]
    ensures visited[child] ==> visited' == visited && q' == q && marked' == marked
    ensures !visited[child] ==> visited' == visited[child := true] && marked' == marked + [child]
    ensures forall v | 0 <= v < |g| && visited[v] :: visited'[v]
    ensures |marked| <= |marked'| && marked'[..|marked|] == marked
    ensures GetQueue(q') == GetQueue(q) + marked'[|marked|..]
    ensures Unvisited(visited') + Size(q') == Unvisited(visited) + Size(q)
  {
    if !visited[child] {
      ReachesStep(g, root, cnode, child);
      MarkOne(visited, child);
      MarkStep(g, root, visited, marked, child);
      visited' := visited[child := true];
      q' := Enqueue(q, child);
      marked' := marked + [child];
      assert marked'[|marked|..] == [child];
    } else {
      visited', q', marked' := visited, q, marked;
      assert marked[|marked|..] == [];
    }
  }

  /** Queue contents and marked lists compose over successive steps. */
  lemma ExtendTwice(q0: seq<nat>, q1: seq<nat>, q2: seq<nat>, m0: seq<nat>, m1: seq<nat>, m2: seq<nat>)
    requires |m0| <= |m1| && m1[..|m0|] == m0 && q1 == q0 + m1[|m0|..]
    requires |m1| <= |m2| && m2[..|m1|] == m1 && q2 == q1 + m2[|m1|..]
    ensures |m0| <= |m2| && m2[..|m0|] == m0 && q2 == q0 + m2[|m0|..]
  {
    assert m2 == m1 + m2[|m1|..];
    assert m1 == m0 + m1[|m0|..];
    assert m2[|m0|..] == m1[|m0|..] + m2[|m1|..];
  }

  /** The body of the script's loop for one dequeued node `cnode`: each
      child whose flag is clear gets its flag set and is enqueued; marked
      children are skipped. Afterwards every child is marked, the newly
      enqueued nodes are exactly the newly marked ones, in order, and no
      flag is cleared. */
  method VisitChildren(g: Graph, root: nat, cnode: nat, visited: seq<bool>, q: Queue<nat>, ghost marked: seq<nat>)
    returns (visited': seq<bool>, q': Queue<nat>, ghost marked': seq<nat>)
    requires ValidGraph(g) && root < |g| && cnode < |g|
    requires cnode == root || Reaches(g, root, cnode)
    requires MarkedOnce(g, root, visited, marked)
    ensures MarkedOnce(g, root, visited', marked')
    ensures |marked| <= |marked'| && marked'[..|marked|] == marked
    ensures GetQueue(q') == GetQueue(q) + marked'[|marked|..]
    ensures forall c | c in g[cnode].children :: visited'[c]
    ensures forall v | 0 <= v < |g| && visited[v] :: visited'[v]
    ensures Unvisited(visited') + Size(q') == Unvisited(visited) + Size(q)
  {
    visited', q', marked' := visited, q, marked;
    assert marked[..|marked|] == marked && marked[|marked|..] == [];
    var children := g[cnode].children;
    var k := 0;
    while k < |children|
      invariant 0 <= k <= |children|
      invariant MarkedOnce(g, root, visited', marked')
      invariant |marked| <= |marked'| && marked'[..|marked|] == marked
      invariant GetQueue(q') == GetQueue(q) + marked'[|marked|..]
      invariant forall i | 0 <= i < k :: children[i] < |g| && visited'[children[i]]
      invariant forall v | 0 <= v < |g| && visited[v] :: visited'[v]
      invariant Unvisited(visited') + Size(q') == Unvisited(visited) + Size(q)
    {
      ghost var m1, q1 := marked', q';
      visited', q', marked' := VisitChild(g, root, cnode, children[k], visited', q', marked');
      ExtendTwice(GetQueue(q), GetQueue(q1), GetQueue(q'), marked, m1, marked');
      k := k + 1;
    }
    forall c | c in children ensures visited'[c] {
      var i :| 0 <= i < |children| && children[i] == c;
    }
  }

  /** The script's loop from `q.enqueue(root)` to the final print. It
      returns the `visited` flags, the nodes in the order they were dequeued
      (the "Dequeued:" lines) and the queue left at the end. Each node other
      than the root is enqueued at most once, the flags end up set exactly
      on the nodes reachable from the root by at least one link, and the
      queue ends empty. The root itself is marked only when some reachable
      node lists it as a child. */
  method Traverse(g: Graph, root: nat) returns (visited: seq<bool>, dequeued: seq<nat>, rest: seq<nat>)
    requires ValidGraph(g) && root < |g|
    ensures |visited| == |g| && rest == []
    ensures |dequeued| >= 1 && dequeued[0] == root
    ensures forall v | 0 <= v < |g| :: visited[v] <==> Reaches(g, root, v)
    ensures forall v | 0 <= v < |g| :: visited[v] <==> v in dequeued[1..]
    ensures forall i | 0 <= i < |dequeued| :: dequeued[i] < |g|
    ensures forall i, j | 1 <= i < j < |dequeued| :: dequeued[i] != dequeued[j]
  {
    visited := seq(|g|, _ => false);
    var q := Enqueue(EmptyQueue<nat>(), root);
    dequeued := [];
    ghost var marked: seq<nat> := [];
    while !IsEmpty(q)
      invariant MarkedOnce(g, root, visited, marked)
      invariant dequeued + GetQueue(q) == [root] + marked
      invariant ChildrenMarked(g, visited, dequeued)
      decreases Unvisited(visited) + Size(q)
    {
      FrontIsReachable(g, root, visited, marked, dequeued, GetQueue(q));
      var (reply, q1) := Dequeue(q);
      var cnode := reply.value;
      ghost var marked0 := marked;
      ghost var visited0 := visited;
      visited, q, marked := VisitChildren(g, root, cnode, visited, q1, marked);
      QueueBookkeeping(dequeued, cnode, GetQueue(q1), GetQueue(q), root, marked0, marked);
      ChildrenMarkedExtend(g, visited0, visited, dequeued, cnode);
      dequeued := dequeued + [cnode];
    }
    rest := GetQueue(q);
    assert dequeued == [root] + marked;
    assert dequeued[1..] == marked;
    ReachableMarked(g, root, visited, dequeued);
  }

  /** The four nodes the script builds: `a` ("A") with children `b` and
      `c`, `b` ("B") with child `d`, and `c`, `d` both named "C". */
  function ScriptGraph(): (g: Graph)
    ensures ValidGraph(g)
  {
    [Node("A", [1, 2]), Node("B", [3]), Node("C", []), Node("C", [])]
  }

  function SetOf(t: seq<nat>): set<nat> {
    set x | x in t
  }

  /** A sequence without repetitions has as many elements as its set. */
  lemma {:induction false} DistinctCard(t: seq<nat>)
    requires forall i, j | 0 <= i < j < |t| :: t[i] != t[j]
    ensures |SetOf(t)| == |t|
  {
    if t != [] {
      var init := t[..|t| - 1];
      var e := t[|t| - 1];
      DistinctCard(init);
      assert SetOf(t) == SetOf(init) + {e};
      assert e !in SetOf(init);
    }
  }

  lemma ScriptReachability()
    ensures !Reaches(ScriptGraph(), 0, 0)
    ensures Reaches(ScriptGraph(), 0, 1) && Reaches(ScriptGraph(), 0, 2) && Reaches(ScriptGraph(), 0, 3)
  {
    var g := ScriptGraph();
    NeverAChild(g, 0, 0);
    assert IsWalk(g, [0, 1]);
    assert IsWalk(g, [0, 2]);
    assert IsWalk(g, [0, 1, 3]);
  }

  /** The names of the nodes at positions `ids`, as the script prints them. */
  function Names(g: Graph, ids: seq<nat>): (names: seq<string>)
    requires forall i | 0 <= i < |ids| :: ids[i] < |g|
    ensures |names| == |ids|
    ensures forall i | 0 <= i < |ids| :: names[i] == g[ids[i]].name
  {
    seq(|ids|, i requires 0 <= i < |ids| => g[ids[i]].name)
  }

  /** The nodes dequeued after the root are `b`, `c` and `d`, each once. */
  lemma ScriptTail(t: seq<nat>)
    requires forall i | 0 <= i < |t| :: t[i] < 4
    requires forall i, j | 0 <= i < j < |t| :: t[i] != t[j]
    requires forall v | 0 <= v < 4 :: v in t <==> v != 0
    ensures |t| == 3
  {
    forall x ensures x in SetOf(t) <==> x in {1, 2, 3} {
      if x in t { var i :| 0 <= i < |t| && t[i] == x; }
    }
    assert SetOf(t) == {1, 2, 3};
    DistinctCard(t);
  }

  /** Whatever order the walk takes, a dequeue list that starts at `a` and
      holds each of `b`, `c`, `d` exactly once prints "A", then "B" and "C"
      twice. */
  lemma ScriptNames(dequeued: seq<nat>)
    requires |dequeued| >= 1 && dequeued[0] == 0
    requires forall i | 0 <= i < |dequeued| :: dequeued[i] < 4
    requires forall i, j | 1 <= i < j < |dequeued| :: dequeued[i] != dequeued[j]
    requires forall v | 0 <= v < 4 :: v in dequeued[1..] <==> v != 0
    ensures |dequeued| == 4
    ensures multiset(Names(ScriptGraph(), dequeued)) == multiset{"A", "B", "C", "C"}
  {
    var g := ScriptGraph();
    var t := dequeued[1..];
    assert forall i | 0 <= i < |t| :: t[i] == dequeued[i + 1];
    ScriptTail(t);
    var names := Names(g, dequeued);
    assert names[0] == "A";
    assert 1 in t;
    var k :| 1 <= k < 4 && dequeued[k] == 1;
    assert names[k] == "B";
    forall i | 1 <= i < 4 && i != k ensures names[i] == "C" {
      assert dequeued[i] == t[i - 1] && t[i - 1] in t;
    }
    OneB(names, k);
  }

  lemma OneB(names: seq<string>, k: nat)
    requires |names| == 4 && names[0] == "A" && 1 <= k < 4 && names[k] == "B"
    requires forall i | 1 <= i < 4 && i != k :: names[i] == "C"
    ensures multiset(names) == multiset{"A", "B", "C", "C"}
  {
    if k == 1 {
      assert names == ["A", "B", "C", "C"];
    } else if k == 2 {
      assert names == ["A", "C", "B", "C"];
    } else {
      assert names == ["A", "C", "C", "B"];
    }
  }

  /** The script run from `a`: `b`, `c` and `d` end up visited while `a`
      does not, four nodes are dequeued, `a` first, then `b` and the two
      nodes named "C" in some order, and the final print shows an empty
      queue. */
  method RunScript() returns (dequeuedNames: seq<string>, finalNames: seq<string>, visited: seq<bool>)
    ensures visited == [false, true, true, true]
    ensures finalNames == []
    ensures |dequeuedNames| == 4 && dequeuedNames[0] == "A"
    ensures multiset(dequeuedNames) == multiset{"A", "B", "C", "C"}
  {
    var g := ScriptGraph();
    var dequeued, rest;
    visited, dequeued, rest := Traverse(g, 0);
    ScriptReachability();
    assert visited == [false, true, true, true];
    ScriptNames(dequeued);
    dequeuedNames := Names(g, dequeued);
    finalNames := Names(g, rest);
  }
}
