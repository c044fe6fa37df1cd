/** The second half of `buildLoop` in src/main.js: the greedy walk that turns
    the adjacency map into an ordered contour, and the whole `buildLoop`. */
module LoopBuilder {
  import opened Optional
  import opened Sequences
  import opened Adjacency

  /** The search on line 96: the index of the first neighbour that differs
      from `previous`, if there is one. A `null` previous (`None`) differs
      from every node. */
  function FindOther(ns: seq<Node>, previous: Option<Node>): (r: Option<nat>)
    ensures r.Some? ==> r.value < |ns| && Some(ns[r.value]) != previous
    ensures r.Some? ==> forall j :: 0 <= j < r.value ==> Some(ns[j]) == previous
    ensures r.None? ==> forall j :: 0 <= j < |ns| ==> Some(ns[j]) == previous
    decreases |ns|
  {
    if |ns| == 0 then None
    else if Some(ns[0]) != previous then Some(0)
    else
      match FindOther(ns[1..], previous)
      case Some(k) => Some(k + 1)
      case None => None
  }

  /** The greedy choice on line 96: the first neighbour that is not the node
      just left, falling back to the first neighbour when every neighbour is
      that node. */
  function NextNode(ns: seq<Node>, previous: Option<Node>): (n: Node)
    requires |ns| > 0
    ensures n in ns
    ensures Some(n) == previous ==> forall j :: 0 <= j < |ns| ==> ns[j] == n
    ensures Some(n) != previous ==> exists k :: 0 <= k < |ns| && ns[k] == n && forall j :: 0 <= j < k ==> Some(ns[j]) == previous
    ensures previous.None? ==> n == ns[0]
  {
    match FindOther(ns, previous)
    case Some(k) => ns[k]
    case None => ns[0]
  }

  /** The value of `previous` when the walk stands at `loop[i]`: `null` at the
      start, the node before it afterwards. */
  function Before(loop: seq<Node>, i: nat): Option<Node>
    requires i < |loop|
  {
    if i == 0 then None else Some(loop[i - 1])
  }

  /** Every step of `loop` is the greedy choice of the source from the node
      before it. */
  ghost predicate Greedy(adj: Adjacency, loop: seq<Node>) {
    forall i :: 0 <= i < |loop| - 1 ==>
      |NeighboursOf(adj, loop[i])| > 0 && loop[i + 1] == NextNode(NeighboursOf(adj, loop[i]), Before(loop, i))
  }

  /** The walk ends at the last node of `loop`: it has no neighbours, or the
      greedy choice from it is a node already in the loop (the start included). */
  ghost predicate Stopped(adj: Adjacency, loop: seq<Node>)
    requires |loop| > 0
  {
    var last := |loop| - 1;
    |NeighboursOf(adj, loop[last])| == 0 || NextNode(NeighboursOf(adj, loop[last]), Before(loop, last)) in loop
  }

  /** Each consecutive pair of `loop` is an edge of `adj`. */
  ghost predicate IsPath(adj: Adjacency, loop: seq<Node>) {
    forall i :: 0 <= i < |loop| - 1 ==> adj.IsEdge(loop[i], loop[i + 1])
  }

  /** No edge leaves the node set `s`. */
  ghost predicate Closed(adj: Adjacency, s: set<Node>) {
    forall a, b :: a in s && adj.IsEdge(a, b) ==> b in s
  }

  /** Every node is reachable from every other: a node set closed under edges
      that holds one node holds them all. */
  ghost predicate Connected(adj: Adjacency) {
    forall s :: Closed(adj, s) && (exists k :: k in s && k in adj.neighbours) ==> (forall k :: k in adj.neighbours ==> k in s)
  }

  /** The connections form one simple cycle: every node has exactly two
      neighbours, none of them itself, edges go both ways, and the graph is
      connected. */
  ghost predicate SimpleCycle(adj: Adjacency) {
    && adj.Size() > 0
    && Symmetric(adj)
    && (forall n :: n in adj.neighbours ==> |adj.neighbours[n]| == 2 && n !in adj.neighbours[n])
    && Connected(adj)
  }

  /** Greedy steps follow edges. */
  lemma GreedyIsPath(adj: Adjacency, loop: seq<Node>)
    requires Greedy(adj, loop)
    ensures IsPath(adj, loop)
  {
    forall i | 0 <= i < |loop| - 1
      ensures adj.IsEdge(loop[i], loop[i + 1])
    {
      assert loop[i + 1] in NeighboursOf(adj, loop[i]);
    }
  }

  /** In a duplicate-free pair, any member is one of two distinct members. */
  lemma OneOfTwo(ns: seq<Node>, p: Node, q: Node, b: Node)
    requires |ns| == 2 && p in ns && q in ns && b in ns && p != q
    ensures b == p || b == q
  {
  }

  /** On a simple cycle the greedy walk cannot run into a node it passed
      earlier: the only node it can meet again is the start. */
  lemma {:induction false} RevisitMeansNoCycle(adj: Adjacency, loop: seq<Node>, next: Node)
    requires WellFormed(adj) && |loop| > 0 && Distinct(loop) && Greedy(adj, loop)
    requires forall i :: 0 <= i < |loop| ==> loop[i] in adj.neighbours
    requires |NeighboursOf(adj, loop[|loop| - 1])| > 0
    requires next == NextNode(NeighboursOf(adj, loop[|loop| - 1]), Before(loop, |loop| - 1))
    requires next in loop && next != loop[0]
    ensures !SimpleCycle(adj)
  {
    if SimpleCycle(adj) {
      GreedyIsPath(adj, loop);
      var m := |loop|;
      var last := loop[m - 1];
      var ns := adj.neighbours[last];
      var j :| 0 <= j < m && loop[j] == next;
      assert ns[0] != ns[1];
      assert j != m - 1;
      assert j != m - 2;
      assert adj.IsEdge(loop[j], loop[j + 1]);
      assert adj.IsEdge(loop[j - 1], loop[j]);
      assert adj.IsEdge(last, loop[j]);
      OneOfTwo(adj.neighbours[loop[j]], loop[j - 1], loop[j + 1], last);
    }
  }

  /** On a simple cycle the walk cannot close before it has three nodes. */
  lemma CycleClosesAfterThree(adj: Adjacency, loop: seq<Node>)
    requires WellFormed(adj) && SimpleCycle(adj) && |loop| > 0 && Distinct(loop) && Greedy(adj, loop)
    requires forall i :: 0 <= i < |loop| ==> loop[i] in adj.neighbours
    requires NextNode(NeighboursOf(adj, loop[|loop| - 1]), Before(loop, |loop| - 1)) == loop[0]
    ensures |loop| >= 3
  {
    var ns := adj.neighbours[loop[|loop| - 1]];
    assert ns[0] != ns[1];
  }

  /** A closed greedy walk on a simple cycle visits every node: the nodes it
      visits form a set that no edge leaves. */
  lemma ClosedWalkCovers(adj: Adjacency, loop: seq<Node>)
    requires WellFormed(adj) && SimpleCycle(adj)
    requires |loop| >= 3 && Distinct(loop) && IsPath(adj, loop)
    requires forall i :: 0 <= i < |loop| ==> loop[i] in adj.neighbours
    requires adj.IsEdge(loop[|loop| - 1], loop[0])
    ensures forall n :: n in adj.neighbours ==> n in loop
  {
    var s := Elements(loop);
    var m := |loop|;
    forall a, b | a in s && adj.IsEdge(a, b)
      ensures b in s
    {
      var i :| 0 <= i < m && loop[i] == a;
      var pred := if i == 0 then loop[m - 1] else loop[i - 1];
      var succ := if i == m - 1 then loop[0] else loop[i + 1];
      assert adj.IsEdge(a, succ);
      assert adj.IsEdge(pred, a);
      assert pred != succ;
      OneOfTwo(adj.neighbours[a], pred, succ, b);
    }
    assert Closed(adj, s);
    assert loop[0] in s && loop[0] in adj.neighbours;
  }

  /** The facts the walk keeps while it runs. */
  ghost predicate Walking(adj: Adjacency, loop: seq<Node>) {
    && WellFormed(adj) && adj.Size() > 0
    && |loop| > 0 && loop[0] == adj.keys[0]
    && Distinct(loop)
    && (forall i :: 0 <= i < |loop| ==> loop[i] in adj.neighbours)
    && |loop| <= adj.Size()
    && Greedy(adj, loop)
  }

  /** Appending the greedy choice keeps every step greedy. */
  lemma GreedyExtend(adj: Adjacency, loop: seq<Node>, next: Node)
    requires |loop| > 0 && Greedy(adj, loop)
    requires |NeighboursOf(adj, loop[|loop| - 1])| > 0
    requires next == NextNode(NeighboursOf(adj, loop[|loop| - 1]), Before(loop, |loop| - 1))
    ensures Greedy(adj, loop + [next])
  {
    var ext := loop + [next];
    forall i | 0 <= i < |ext| - 1
      ensures |NeighboursOf(adj, ext[i])| > 0 && ext[i + 1] == NextNode(NeighboursOf(adj, ext[i]), Before(ext, i))
    {
      assert ext[i] == loop[i];
      assert Before(ext, i) == Before(loop, i);
      if i < |loop| - 1 {
        assert ext[i + 1] == loop[i + 1];
      }
    }
  }

  /** Appending the greedy choice, when it is a node not yet visited, keeps
      the walk's facts; in particular the loop stays no longer than the map. */
  lemma WalkStep(adj: Adjacency, loop: seq<Node>, next: Node)
    requires Walking(adj, loop)
    requires |NeighboursOf(adj, loop[|loop| - 1])| > 0
    requires next == NextNode(NeighboursOf(adj, loop[|loop| - 1]), Before(loop, |loop| - 1))
    requires next !in loop
    ensures Walking(adj, loop + [next])
  {
    var ext := loop + [next];
    var last := loop[|loop| - 1];
    assert last in adj.neighbours;
    assert next in adj.neighbours[last];
    assert adj.IsEdge(last, next);
    assert next in adj.neighbours;
    assert Distinct(ext);
    assert forall i :: 0 <= i < |ext| ==> ext[i] in adj.neighbours;
    assert forall i :: 0 <= i < |ext| ==> ext[i] in adj.keys;
    DistinctSubsequenceBound(ext, adj.keys);
    GreedyExtend(adj, loop, next);
  }

  /** A walk on a simple cycle that closes back at the start has visited every
      node, and its last node is adjacent to its first. */
  lemma CycleWalkComplete(adj: Adjacency, loop: seq<Node>)
    requires Walking(adj, loop) && SimpleCycle(adj)
    requires NextNode(NeighboursOf(adj, loop[|loop| - 1]), Before(loop, |loop| - 1)) == loop[0]
    ensures |loop| == adj.Size() && (forall n :: n in adj.neighbours ==> n in loop)
    ensures |loop| >= 3
    ensures adj.IsEdge(loop[|loop| - 1], loop[0])
  {
    CycleClosesAfterThree(adj, loop);
    GreedyIsPath(adj, loop);
    ClosedWalkCovers(adj, loop);
    DistinctSubsequenceBound(loop, adj.keys);
  }

  /** Lines 88-105: the walk from the first inserted node. */
  method Trace(adj: Adjacency) returns (loop: seq<Node>)
    requires WellFormed(adj) && adj.Size() > 0
    ensures |loop| > 0 && loop[0] == adj.keys[0]
    ensures Distinct(loop)
    ensures forall i :: 0 <= i < |loop| ==> loop[i] in adj.neighbours
    ensures |loop| <= adj.Size()
    ensures Greedy(adj, loop) && Stopped(adj, loop)
    ensures SimpleCycle(adj) ==> |loop| == adj.Size() && (forall n :: n in adj.neighbours ==> n in loop)
    ensures SimpleCycle(adj) ==> |loop| >= 3
    ensures SimpleCycle(adj) ==> adj.IsEdge(loop[|loop| - 1], loop[0])
  {
    var start := adj.keys[0];
    loop := [start];
    var previous: Option<Node> := None;
    var current := start;
    while true
      invariant Walking(adj, loop)
      invariant current == loop[|loop| - 1] && previous == Before(loop, |loop| - 1)
      decreases adj.Size() - |loop|
    {
      var neighbours := NeighboursOf(adj, current);
      if |neighbours| == 0 {
        break;
      }
      var next := NextNode(neighbours, previous);
      if next == start {
        break;
      }
      if next in loop {
        RevisitMeansNoCycle(adj, loop, next);
        break;
      }
      WalkStep(adj, loop, next);
      loop := loop + [next];
      previous := Some(current);
      current := next;
      assert |loop| <= adj.Size();
      if |loop| > adj.Size() + 2 {
        break;
      }
    }
    if SimpleCycle(adj) {
      CycleWalkComplete(adj, loop);
    }
  }

  /** Two greedy walks from the same node agree as far as both reach: each
      step depends only on the node reached and the node before it. */
  lemma {:induction false} GreedyAgree(adj: Adjacency, p: seq<Node>, q: seq<Node>, i: nat)
    requires |p| > 0 && |q| > 0 && p[0] == q[0]
    requires Greedy(adj, p) && Greedy(adj, q)
    requires i < |p| && i < |q|
    ensures p[..i + 1] == q[..i + 1]
  {
    if i > 0 {
      GreedyAgree(adj, p, q, i - 1);
      assert p[i - 1] == p[..i][i - 1] == q[..i][i - 1] == q[i - 1];
      assert Before(p, i - 1) == Before(q, i - 1) by {
        if i > 1 {
          assert p[i - 2] == p[..i][i - 2] == q[..i][i - 2] == q[i - 2];
        }
      }
      assert p[..i + 1] == p[..i] + [p[i]];
      assert q[..i + 1] == q[..i] + [q[i]];
    }
  }

  /** A walk that stops, followed further by a greedy walk, would make that
      longer walk step back onto a node it already holds. */
  lemma StepAfterStop(adj: Adjacency, p: seq<Node>, q: seq<Node>)
    requires |p| > 0 && |p| < |q| && p == q[..|p|]
    requires Greedy(adj, q) && Stopped(adj, p)
    ensures q[|p|] in p
  {
    var k := |p| - 1;
    assert p[k] == q[k];
    if k > 0 {
      assert p[k - 1] == q[k - 1];
    }
    assert Before(p, k) == Before(q, k);
  }

  /** A duplicate-free greedy walk that extends a stopped walk is that walk. */
  lemma StoppedPrefixIsWhole(adj: Adjacency, p: seq<Node>, q: seq<Node>)
    requires |p| > 0 && |p| <= |q| && p == q[..|p|]
    requires Distinct(q) && Greedy(adj, q) && Stopped(adj, p)
    ensures p == q
  {
    if |p| < |q| {
      StepAfterStop(adj, p, q);
      assert false;
    }
  }

  /** The contour is determined: two duplicate-free greedy walks from the same
      node that both stop where the source stops are the same walk. */
  lemma WalkDeterminate(adj: Adjacency, p: seq<Node>, q: seq<Node>)
    requires |p| > 0 && |q| > 0 && p[0] == q[0]
    requires Distinct(p) && Distinct(q)
    requires Greedy(adj, p) && Greedy(adj, q)
    requires Stopped(adj, p) && Stopped(adj, q)
    ensures p == q
  {
    if |p| <= |q| {
      GreedyAgree(adj, p, q, |p| - 1);
      StoppedPrefixIsWhole(adj, p, q);
    } else {
      GreedyAgree(adj, p, q, |q| - 1);
      StoppedPrefixIsWhole(adj, q, p);
    }
  }

  /** A path in the map built from `conns` steps only along connections. */
  lemma PathIsLinked(conns: seq<RawConnection>, loop: seq<Node>)
    requires IsPath(AdjacencyOf(conns), loop)
    ensures forall i :: 0 <= i < |loop| - 1 ==> Linked(conns, loop[i], loop[i + 1])
  {
    AdjacencyEdges(conns);
  }

  /** The whole of `buildLoop` (lines 72-106). `None` stands for an absent or
      non-iterable argument. */
  method BuildLoop(connections: Option<seq<RawConnection>>) returns (loop: seq<Node>)
    ensures connections.None? ==> loop == []
    ensures connections.Some? ==> (loop == [] <==> NoneAccepted(connections.value))
    ensures connections.Some? ==> Distinct(loop)
    ensures connections.Some? ==> forall i :: 0 <= i < |loop| - 1 ==> Linked(connections.value, loop[i], loop[i + 1])
    ensures connections.Some? ==> forall i :: 0 <= i < |loop| ==> Mentioned(connections.value, loop[i])
    ensures connections.Some? ==> forall i :: 0 <= i < |connections.value| && Endpoints(connections.value[i]).Some? && NoneAccepted(connections.value[..i]) ==>
              loop[0] == Endpoints(connections.value[i]).value.0
    ensures connections.Some? ==> |loop| <= AdjacencyOf(connections.value).Size()
    ensures connections.Some? && loop != [] ==> Greedy(AdjacencyOf(connections.value), loop) && Stopped(AdjacencyOf(connections.value), loop)
    ensures connections.Some? && SimpleCycle(AdjacencyOf(connections.value)) ==>
              |loop| == AdjacencyOf(connections.value).Size() && forall n :: Mentioned(connections.value, n) ==> n in loop
    ensures connections.Some? && SimpleCycle(AdjacencyOf(connections.value)) ==> |loop| >= 3
    ensures connections.Some? && SimpleCycle(AdjacencyOf(connections.value)) && loop != [] ==>
              Linked(connections.value, loop[|loop| - 1], loop[0])
  {
    if connections.None? {
      return [];
    }
    var conns := connections.value;
    var adj := AdjacencyOf(conns);
    AdjacencyEmpty(conns);
    if adj.Size() == 0 {
      return [];
    }
    loop := Trace(adj);
    GreedyIsPath(adj, loop);
    PathIsLinked(conns, loop);
    AdjacencyNodes(conns);
    AdjacencyEdges(conns);
    forall i | 0 <= i < |conns| && Endpoints(conns[i]).Some? && NoneAccepted(conns[..i])
      ensures loop[0] == Endpoints(conns[i]).value.0
    {
      AdjacencyFirstKey(conns, i);
    }
  }
}
