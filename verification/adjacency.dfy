/** The first half of `buildLoop` in src/main.js: reading each connection's
    endpoints and folding the accepted ones into a symmetric adjacency map
    that remembers insertion order, as a JavaScript `Map` of `Set`s does. */
module Adjacency {
  import opened Optional
  import opened Sequences

  /** A landmark index. */
  type Node = nat

  /** One entry of the connection list as the detector library supplies it:
      an object with `start`/`end` fields, a two-element array, or anything
      else (null, undefined, a number), which has no endpoints. */
  datatype RawConnection =
    | Record(start: Option<Node>, end: Option<Node>)
    | Tuple(items: seq<Option<Node>>)
    | Other

  /** The `start` field of an object entry, else the first element of an
      array entry, else nothing (lines 76-77). */
  function StartOf(c: RawConnection): (r: Option<Node>)
    ensures c.Record? ==> r == c.start
    ensures c.Tuple? ==> (r.Some? <==> |c.items| > 0 && c.items[0].Some?)
    ensures c.Tuple? && |c.items| > 0 ==> r == c.items[0]
    ensures c.Other? ==> r.None?
  {
    match c
    case Record(s, _) => s
    case Tuple(items) => if |items| > 0 then items[0] else None
    case Other => None
  }

  /** The `end` field of an object entry, else the second element of an
      array entry, else nothing (lines 78-79). */
  function EndOf(c: RawConnection): (r: Option<Node>)
    ensures c.Record? ==> r == c.end
    ensures c.Tuple? ==> (r.Some? <==> |c.items| > 1 && c.items[1].Some?)
    ensures c.Tuple? && |c.items| > 1 ==> r == c.items[1]
    ensures c.Other? ==> r.None?
  {
    match c
    case Record(_, e) => e
    case Tuple(items) => if |items| > 1 then items[1] else None
    case Other => None
  }

  /** The pair a connection contributes, or `None` when either endpoint is null
      or missing and the entry is skipped. */
  function Endpoints(c: RawConnection): (r: Option<(Node, Node)>)
    ensures r.Some? <==> StartOf(c).Some? && EndOf(c).Some?
    ensures r.Some? ==> r.value == (StartOf(c).value, EndOf(c).value)
  {
    match (StartOf(c), EndOf(c))
    case (Some(a), Some(b)) => Some((a, b))
    case _ => None
  }

  /** The entry `c` connects `a` and `b`, in either direction. */
  predicate Joins(c: RawConnection, a: Node, b: Node) {
    Endpoints(c) == Some((a, b)) || Endpoints(c) == Some((b, a))
  }

  /** The entry `c` is accepted and has `n` as an endpoint. */
  predicate Touches(c: RawConnection, n: Node) {
    Endpoints(c).Some? && (Endpoints(c).value.0 == n || Endpoints(c).value.1 == n)
  }

  /** An accepted entry joins exactly its own pair, in either direction. */
  lemma JoinsPair(c: RawConnection, a: Node, b: Node)
    requires Endpoints(c).Some?
    ensures Joins(c, a, b) <==> Endpoints(c).value == (a, b) || Endpoints(c).value == (b, a)
  {
  }

  /** Some entry of `conns` connects `a` and `b`, in either direction. */
  ghost predicate Linked(conns: seq<RawConnection>, a: Node, b: Node) {
    exists i :: 0 <= i < |conns| && Joins(conns[i], a, b)
  }

  /** Some accepted entry of `conns` has `a` as one of its endpoints. */
  ghost predicate Mentioned(conns: seq<RawConnection>, a: Node) {
    exists i :: 0 <= i < |conns| && Touches(conns[i], a)
  }

  /** The index of the first entry of `conns` that connects `a` and `b`, in
      either direction, or `|conns|` when no entry does. */
  function FirstJoin(conns: seq<RawConnection>, a: Node, b: Node): (k: nat)
    ensures k <= |conns|
    ensures k < |conns| ==> Joins(conns[k], a, b)
    ensures forall j :: 0 <= j < k && j < |conns| ==> !Joins(conns[j], a, b)
    decreases |conns|
  {
    if |conns| == 0 then 0
    else
      var k := FirstJoin(conns[..|conns| - 1], a, b);
      if k < |conns| - 1 then k
      else if Joins(conns[|conns| - 1], a, b) then |conns| - 1
      else |conns|
  }

  /** No entry of `conns` has both endpoints. */
  predicate NoneAccepted(conns: seq<RawConnection>) {
    forall i :: 0 <= i < |conns| ==> Endpoints(conns[i]).None?
  }

  /** The `Map<node, Set<node>>` of the source: `keys` lists the nodes in the
      order they were first inserted, `neighbours` maps each to its neighbours
      in the order they were first added. */
  datatype Adjacency = Adjacency(keys: seq<Node>, neighbours: map<Node, seq<Node>>) {

    /** The number of nodes, the size of the source's map. */
    function Size(): nat {
      |keys|
    }

    /** `b` is in the neighbour set of `a`. */
    predicate IsEdge(a: Node, b: Node) {
      a in neighbours && b in neighbours[a]
    }
  }

  const Empty := Adjacency([], map[])

  /** The neighbour list of `n`, or no neighbours when `n` is not a key of the
      map (line 94). */
  function NeighboursOf(adj: Adjacency, n: Node): (r: seq<Node>)
    ensures n !in adj.neighbours ==> r == []
  {
    if n in adj.neighbours then adj.neighbours[n] else []
  }

  /** The list the walk reads holds exactly the neighbours of `n`. */
  lemma NeighboursAreEdges(adj: Adjacency, n: Node)
    ensures forall x :: x in NeighboursOf(adj, n) <==> adj.IsEdge(n, x)
  {
  }

  /** The shape every map built here has: the key list is duplicate-free and
      lists exactly the map's keys, every neighbour set is duplicate-free, and
      every neighbour is itself a key. */
  ghost predicate WellFormed(adj: Adjacency) {
    && Distinct(adj.keys)
    && (forall k :: k in adj.neighbours <==> k in adj.keys)
    && (forall k :: k in adj.neighbours ==> Distinct(adj.neighbours[k]))
    && (forall a, b :: adj.IsEdge(a, b) ==> b in adj.neighbours)
  }

  /** Every edge is present in both directions. */
  ghost predicate Symmetric(adj: Adjacency) {
    forall a, b :: adj.IsEdge(a, b) ==> adj.IsEdge(b, a)
  }

  /** Gives `k` an empty neighbour set unless it already has one, appending it
      to the key order (lines 81-82). */
  function AddKey(adj: Adjacency, k: Node): (r: Adjacency)
    requires WellFormed(adj)
    ensures WellFormed(r)
    ensures k in r.neighbours
    ensures forall n :: n in adj.neighbours ==> n in r.neighbours && r.neighbours[n] == adj.neighbours[n]
    ensures k !in adj.neighbours ==> r.neighbours[k] == [] && r.keys == adj.keys + [k]
    ensures k in adj.neighbours ==> r == adj
    ensures forall a, b :: r.IsEdge(a, b) <==> adj.IsEdge(a, b)
    ensures forall n :: n in r.neighbours <==> n in adj.neighbours || n == k
    ensures |adj.keys| > 0 ==> r.keys[0] == adj.keys[0]
    ensures |adj.keys| == 0 ==> r.keys == [k]
  {
    if k in adj.neighbours then adj
    else
      var r := Adjacency(adj.keys + [k], adj.neighbours[k := []]);
      assert forall a, b :: r.IsEdge(a, b) ==> adj.IsEdge(a, b);
      r
  }

  /** Adds `b` to the neighbour set of `a` (lines 83-84). Like a JavaScript
      `Set`, the list ignores a second insertion and otherwise appends, so the
      neighbours stay in the order they were first added. */
  function AddNeighbour(adj: Adjacency, a: Node, b: Node): (r: Adjacency)
    requires WellFormed(adj)
    requires a in adj.neighbours && b in adj.neighbours
    ensures WellFormed(r)
    ensures r.keys == adj.keys
    ensures forall x, y :: r.IsEdge(x, y) <==> adj.IsEdge(x, y) || (x == a && y == b)
    ensures b in adj.neighbours[a] ==> r == adj
    ensures b !in adj.neighbours[a] ==> r.neighbours[a] == adj.neighbours[a] + [b]
    ensures r.neighbours.Keys == adj.neighbours.Keys
    ensures forall k :: k in adj.neighbours && k != a ==> r.neighbours[k] == adj.neighbours[k]
  {
    if b in adj.neighbours[a] then adj
    else
      var r := adj.(neighbours := adj.neighbours[a := adj.neighbours[a] + [b]]);
      assert forall x, y :: r.IsEdge(x, y) ==> adj.IsEdge(x, y) || (x == a && y == b);
      r
  }

  /** `x` may be appended to the neighbour list of `k` while the pair
      `a`-`b` is inserted: it is the other endpoint of that pair. */
  predicate OtherEnd(k: Node, x: Node, a: Node, b: Node) {
    (k == a && x == b) || (k == b && x == a)
  }

  /** A node has only one other end in a pair. */
  lemma OtherEndUnique(k: Node, x: Node, y: Node, a: Node, b: Node)
    requires OtherEnd(k, x, a, b) && OtherEnd(k, y, a, b)
    ensures x == y
  {
  }

  /** Going from `before` to `after`, no key is dropped, every neighbour list
      keeps its old entries in front, and whatever is appended after them is
      the other endpoint of the pair `a`-`b`. */
  ghost predicate GrowsBy(before: Adjacency, after: Adjacency, a: Node, b: Node) {
    && (forall k :: k in before.neighbours ==> k in after.neighbours && before.neighbours[k] <= after.neighbours[k])
    && (forall k, i :: k in before.neighbours && |before.neighbours[k]| <= i < |after.neighbours[k]| ==>
          OtherEnd(k, after.neighbours[k][i], a, b))
    && (forall k, i :: k in after.neighbours && k !in before.neighbours && 0 <= i < |after.neighbours[k]| ==>
          OtherEnd(k, after.neighbours[k][i], a, b))
  }

  lemma GrowsByAddKey(adj: Adjacency, k: Node, a: Node, b: Node)
    requires WellFormed(adj)
    ensures GrowsBy(adj, AddKey(adj, k), a, b)
  {
  }

  lemma GrowsByAddNeighbour(adj: Adjacency, a: Node, b: Node)
    requires WellFormed(adj) && a in adj.neighbours && b in adj.neighbours
    ensures GrowsBy(adj, AddNeighbour(adj, a, b), a, b)
  {
  }

  /** The pair `a`-`b` is unordered. */
  lemma GrowsBySwap(x: Adjacency, y: Adjacency, a: Node, b: Node)
    requires GrowsBy(x, y, a, b)
    ensures GrowsBy(x, y, b, a)
  {
  }

  lemma GrowsByTransitive(x: Adjacency, y: Adjacency, z: Adjacency, a: Node, b: Node)
    requires GrowsBy(x, y, a, b) && GrowsBy(y, z, a, b)
    ensures GrowsBy(x, z, a, b)
  {
    forall k | k in x.neighbours
      ensures k in z.neighbours && x.neighbours[k] <= z.neighbours[k]
    {
      var xs, ys, zs := x.neighbours[k], y.neighbours[k], z.neighbours[k];
      assert forall j :: 0 <= j < |xs| ==> zs[j] == ys[j] == xs[j];
    }
    forall k, i | k in z.neighbours && 0 <= i < |z.neighbours[k]|
      && (k in x.neighbours ==> |x.neighbours[k]| <= i)
      ensures OtherEnd(k, z.neighbours[k][i], a, b)
    {
      if k in y.neighbours && i < |y.neighbours[k]| {
        assert z.neighbours[k][i] == y.neighbours[k][i];
      }
    }
  }

  /** The loop body for one accepted pair (lines 81-84). */
  function Insert(adj: Adjacency, a: Node, b: Node): (r: Adjacency)
    requires WellFormed(adj)
    ensures WellFormed(r)
    ensures forall x, y :: r.IsEdge(x, y) <==> adj.IsEdge(x, y) || (x == a && y == b) || (x == b && y == a)
    ensures forall n :: n in r.neighbours <==> n in adj.neighbours || n == a || n == b
  {
    AddNeighbour(AddNeighbour(AddKey(AddKey(adj, a), b), a, b), b, a)
  }

  /** Inserting a pair keeps every neighbour list's old entries in front, and
      anything appended after them is the other endpoint of the pair. */
  lemma InsertGrows(adj: Adjacency, a: Node, b: Node)
    requires WellFormed(adj)
    ensures GrowsBy(adj, Insert(adj, a, b), a, b)
  {
    var withA := AddKey(adj, a);
    var withB := AddKey(withA, b);
    var ab := AddNeighbour(withB, a, b);
    GrowsByAddKey(adj, a, a, b);
    GrowsByAddKey(withA, b, a, b);
    GrowsByAddNeighbour(withB, a, b);
    GrowsByAddNeighbour(ab, b, a);
    GrowsBySwap(ab, Insert(adj, a, b), b, a);
    GrowsByTransitive(adj, withA, withB, a, b);
    GrowsByTransitive(adj, withB, ab, a, b);
    GrowsByTransitive(adj, ab, Insert(adj, a, b), a, b);
  }


  /** The adjacency map the loop on lines 75-85 has built after reading `conns`. */
  function AdjacencyOf(conns: seq<RawConnection>): (adj: Adjacency)
    ensures WellFormed(adj)
    decreases |conns|
  {
    if |conns| == 0 then Empty
    else
      var before := AdjacencyOf(conns[..|conns| - 1]);
      match Endpoints(conns[|conns| - 1])
      case Some((a, b)) => Insert(before, a, b)
      case None => before
  }

  /** A list links two nodes when its prefix does or its last entry does. */
  lemma LinkedSnoc(conns: seq<RawConnection>, a: Node, b: Node)
    requires |conns| > 0
    ensures Linked(conns, a, b) <==> Linked(conns[..|conns| - 1], a, b) || Joins(conns[|conns| - 1], a, b)
  {
    var init := conns[..|conns| - 1];
    if Linked(init, a, b) {
      var i :| 0 <= i < |init| && Joins(init[i], a, b);
      assert conns[i] == init[i];
    }
    if Linked(conns, a, b) {
      var i :| 0 <= i < |conns| && Joins(conns[i], a, b);
      if i < |init| {
        assert init[i] == conns[i];
      }
    }
  }

  /** Reading one more entry adds exactly the edges that entry joins. */
  lemma EdgeSnoc(conns: seq<RawConnection>, a: Node, b: Node)
    requires |conns| > 0
    ensures AdjacencyOf(conns).IsEdge(a, b) <==>
      AdjacencyOf(conns[..|conns| - 1]).IsEdge(a, b) || Joins(conns[|conns| - 1], a, b)
  {
    var prev := AdjacencyOf(conns[..|conns| - 1]);
    var last := conns[|conns| - 1];
    match Endpoints(last)
    case None =>
      assert AdjacencyOf(conns) == prev;
    case Some((x, y)) =>
      var r := Insert(prev, x, y);
      assert AdjacencyOf(conns) == r;
      JoinsPair(last, a, b);
      assert r.IsEdge(a, b) <==> prev.IsEdge(a, b) || (a == x && b == y) || (a == y && b == x);
  }

  /** The edges of the built map are exactly the accepted connections, each in
      both directions. */
  lemma {:induction false} AdjacencyEdges(conns: seq<RawConnection>)
    ensures forall a, b :: AdjacencyOf(conns).IsEdge(a, b) <==> Linked(conns, a, b)
  {
    if |conns| > 0 {
      var init := conns[..|conns| - 1];
      AdjacencyEdges(init);
      forall a: Node, b: Node
        ensures AdjacencyOf(conns).IsEdge(a, b) <==> Linked(conns, a, b)
      {
        EdgeSnoc(conns, a, b);
        LinkedSnoc(conns, a, b);
      }
    }
  }

  /** Two nodes the built map does not connect are joined by no entry. */
  lemma UnlinkedIfNoEdge(conns: seq<RawConnection>, a: Node, b: Node)
    requires !AdjacencyOf(conns).IsEdge(a, b)
    ensures !Linked(conns, a, b)
  {
    AdjacencyEdges(conns);
  }

  /** The built map is symmetric: connecting `a` to `b` makes each a neighbour
      of the other. */
  lemma {:induction false} AdjacencySymmetric(conns: seq<RawConnection>)
    ensures Symmetric(AdjacencyOf(conns))
  {
    AdjacencyEdges(conns);
  }

  /** The nodes of the built map are exactly the endpoints of the accepted
      connections. */
  lemma {:induction false} AdjacencyNodes(conns: seq<RawConnection>)
    ensures forall n :: n in AdjacencyOf(conns).neighbours <==> Mentioned(conns, n)
  {
    if |conns| > 0 {
      var init := conns[..|conns| - 1];
      AdjacencyNodes(init);
      forall n: Node
        ensures n in AdjacencyOf(conns).neighbours <==> Mentioned(conns, n)
      {
        MentionedSnoc(conns, n);
      }
    }
  }

  /** A list mentions a node when its prefix does or its last entry does. */
  lemma MentionedSnoc(conns: seq<RawConnection>, n: Node)
    requires |conns| > 0
    ensures Mentioned(conns, n) <==> Mentioned(conns[..|conns| - 1], n) || Touches(conns[|conns| - 1], n)
  {
    var init := conns[..|conns| - 1];
    if Mentioned(init, n) {
      var i :| 0 <= i < |init| && Touches(init[i], n);
      assert conns[i] == init[i];
    }
    if Mentioned(conns, n) {
      var i :| 0 <= i < |conns| && Touches(conns[i], n);
      if i < |init| {
        assert init[i] == conns[i];
      }
    }
  }

  /** Every node of the built map has a neighbour: a node only enters the map
      together with the other endpoint of its connection. */
  lemma KeysHaveNeighbours(conns: seq<RawConnection>)
    ensures forall n :: n in AdjacencyOf(conns).neighbours ==> |NeighboursOf(AdjacencyOf(conns), n)| > 0
  {
    AdjacencyNodes(conns);
    AdjacencyEdges(conns);
    forall n | n in AdjacencyOf(conns).neighbours
      ensures |NeighboursOf(AdjacencyOf(conns), n)| > 0
    {
      var i :| 0 <= i < |conns| && Touches(conns[i], n);
      var (a, b) := Endpoints(conns[i]).value;
      var other := if a == n then b else a;
      assert Joins(conns[i], n, other);
      assert AdjacencyOf(conns).IsEdge(n, other);
    }
  }

  /** The map is empty exactly when no connection has both endpoints. */
  lemma AdjacencyEmpty(conns: seq<RawConnection>)
    ensures AdjacencyOf(conns).Size() == 0 <==> NoneAccepted(conns)
  {
    var adj := AdjacencyOf(conns);
    AdjacencyNodes(conns);
    if adj.Size() > 0 {
      assert Mentioned(conns, adj.keys[0]);
    } else if !NoneAccepted(conns) {
      var i :| 0 <= i < |conns| && Endpoints(conns[i]).Some?;
      assert Mentioned(conns, Endpoints(conns[i]).value.0);
    }
  }

  /** The first key of the map, where the walk starts, is the `start` endpoint
      of the first accepted connection. */
  lemma {:induction false} AdjacencyFirstKey(conns: seq<RawConnection>, i: nat)
    requires i < |conns| && Endpoints(conns[i]).Some?
    requires NoneAccepted(conns[..i])
    ensures AdjacencyOf(conns).Size() > 0
    ensures AdjacencyOf(conns).keys[0] == Endpoints(conns[i]).value.0
  {
    var init := conns[..|conns| - 1];
    if i == |conns| - 1 {
      assert init == conns[..i];
      AdjacencyEmpty(init);
    } else {
      assert init[..i] == conns[..i];
      AdjacencyFirstKey(init, i);
    }
  }

  /** Every node of `ns` is connected to `n` by some entry of `conns`, and `ns`
      lists them in the order of the first entry that connects each to `n`. */
  ghost predicate InJoinOrder(conns: seq<RawConnection>, n: Node, ns: seq<Node>) {
    && (forall i :: 0 <= i < |ns| ==> FirstJoin(conns, n, ns[i]) < |conns|)
    && (forall i, j :: 0 <= i < j < |ns| ==> FirstJoin(conns, n, ns[i]) < FirstJoin(conns, n, ns[j]))
  }

  /** Adding an entry to a list leaves the first join of an already connected
      pair where it was, and puts that of a newly connected pair at the new
      entry. */
  lemma FirstJoinSnoc(conns: seq<RawConnection>, a: Node, b: Node)
    requires |conns| > 0
    ensures FirstJoin(conns[..|conns| - 1], a, b) < |conns| - 1 ==>
      FirstJoin(conns, a, b) == FirstJoin(conns[..|conns| - 1], a, b)
    ensures FirstJoin(conns[..|conns| - 1], a, b) == |conns| - 1 && Joins(conns[|conns| - 1], a, b) ==>
      FirstJoin(conns, a, b) == |conns| - 1
    ensures FirstJoin(conns[..|conns| - 1], a, b) < |conns| - 1 <==> Linked(conns[..|conns| - 1], a, b)
  {
    var init := conns[..|conns| - 1];
    if Linked(init, a, b) {
      var i :| 0 <= i < |init| && Joins(init[i], a, b);
    }
  }

  /** Listing nodes in join order is the same as sorting them by first join. */
  lemma JoinOrderIff(conns: seq<RawConnection>, n: Node, ns: seq<Node>)
    requires InJoinOrder(conns, n, ns)
    ensures forall i, j :: 0 <= i < |ns| && 0 <= j < |ns| ==>
      (i < j <==> FirstJoin(conns, n, ns[i]) < FirstJoin(conns, n, ns[j]))
  {
  }

  /** A pair that the last entry joins and no earlier entry does is first
      joined at the last entry. */
  lemma NewlyJoined(conns: seq<RawConnection>, n: Node, x: Node, a: Node, b: Node)
    requires |conns| > 0 && Endpoints(conns[|conns| - 1]) == Some((a, b))
    requires OtherEnd(n, x, a, b) && !Linked(conns[..|conns| - 1], n, x)
    ensures FirstJoin(conns, n, x) == |conns| - 1
  {
    FirstJoinSnoc(conns, n, x);
  }

  /** A neighbour list in join order stays in join order when an entry `a`-`b`
      is added to the list and only the new partner of `n` is appended. */
  lemma AppendKeepsJoinOrder(conns: seq<RawConnection>, n: Node, earlier: seq<Node>, ns: seq<Node>, a: Node, b: Node)
    requires |conns| > 0 && Endpoints(conns[|conns| - 1]) == Some((a, b))
    requires InJoinOrder(conns[..|conns| - 1], n, earlier)
    requires earlier <= ns && Distinct(ns)
    requires forall i :: |earlier| <= i < |ns| ==> OtherEnd(n, ns[i], a, b) && !Linked(conns[..|conns| - 1], n, ns[i])
    ensures InJoinOrder(conns, n, ns)
  {
    var init := conns[..|conns| - 1];
    forall i | 0 <= i < |earlier|
      ensures FirstJoin(conns, n, ns[i]) == FirstJoin(init, n, earlier[i]) < |init|
    {
      FirstJoinSnoc(conns, n, earlier[i]);
    }
    forall i | |earlier| <= i < |ns|
      ensures FirstJoin(conns, n, ns[i]) == |init|
    {
      NewlyJoined(conns, n, ns[i], a, b);
    }
    if |ns| > |earlier| {
      var appended := ns[|earlier|..];
      forall i | 0 <= i < |appended|
        ensures appended[i] in [appended[0]]
      {
        OtherEndUnique(n, appended[0], appended[i], a, b);
      }
      DistinctSubsequenceBound(appended, [appended[0]]);
    }
  }

  /** Inserting the pair `a`-`b` keeps the old neighbours of `n` in front and
      appends only the other endpoint of the pair, and only when it was not a
      neighbour already. */
  lemma InsertAppendsNewPartner(prev: Adjacency, n: Node, a: Node, b: Node)
    requires WellFormed(prev) && n in Insert(prev, a, b).neighbours
    ensures NeighboursOf(prev, n) <= Insert(prev, a, b).neighbours[n]
    ensures forall i :: |NeighboursOf(prev, n)| <= i < |Insert(prev, a, b).neighbours[n]| ==>
      OtherEnd(n, Insert(prev, a, b).neighbours[n][i], a, b) && !prev.IsEdge(n, Insert(prev, a, b).neighbours[n][i])
  {
    var ns := Insert(prev, a, b).neighbours[n];
    var earlier := NeighboursOf(prev, n);
    InsertGrows(prev, a, b);
    forall i | |earlier| <= i < |ns|
      ensures !prev.IsEdge(n, ns[i])
    {
      if prev.IsEdge(n, ns[i]) {
        assert false;
      }
    }
  }

  /** One accepted entry `a`-`b` keeps the neighbours of `n` in join order. */
  lemma InsertKeepsJoinOrder(conns: seq<RawConnection>, n: Node, a: Node, b: Node)
    requires |conns| > 0 && Endpoints(conns[|conns| - 1]) == Some((a, b))
    requires InJoinOrder(conns[..|conns| - 1], n, NeighboursOf(AdjacencyOf(conns[..|conns| - 1]), n))
    requires n in AdjacencyOf(conns).neighbours
    ensures InJoinOrder(conns, n, AdjacencyOf(conns).neighbours[n])
  {
    var init := conns[..|conns| - 1];
    var prev := AdjacencyOf(init);
    var ns := AdjacencyOf(conns).neighbours[n];
    var earlier := NeighboursOf(prev, n);
    assert AdjacencyOf(conns) == Insert(prev, a, b);
    InsertAppendsNewPartner(prev, n, a, b);
    forall i | |earlier| <= i < |ns|
      ensures !Linked(init, n, ns[i])
    {
      UnlinkedIfNoEdge(init, n, ns[i]);
    }
    AppendKeepsJoinOrder(conns, n, earlier, ns, a, b);
  }

  /** A skipped entry joins nothing, so a list in join order stays so. */
  lemma SkipKeepsJoinOrder(conns: seq<RawConnection>, n: Node, ns: seq<Node>)
    requires |conns| > 0 && Endpoints(conns[|conns| - 1]).None?
    requires InJoinOrder(conns[..|conns| - 1], n, ns)
    ensures InJoinOrder(conns, n, ns)
  {
    forall i | 0 <= i < |ns|
      ensures FirstJoin(conns, n, ns[i]) == FirstJoin(conns[..|conns| - 1], n, ns[i]) < |conns| - 1
    {
      FirstJoinSnoc(conns, n, ns[i]);
    }
  }

  /** Every neighbour list of the built map is in join order. */
  lemma {:induction false} AdjacencyJoinOrder(conns: seq<RawConnection>, n: Node)
    ensures InJoinOrder(conns, n, NeighboursOf(AdjacencyOf(conns), n))
  {
    if |conns| > 0 && n in AdjacencyOf(conns).neighbours {
      var init := conns[..|conns| - 1];
      AdjacencyJoinOrder(init, n);
      if Endpoints(conns[|conns| - 1]).None? {
        SkipKeepsJoinOrder(conns, n, NeighboursOf(AdjacencyOf(init), n));
      } else {
        var (a, b) := Endpoints(conns[|conns| - 1]).value;
        InsertKeepsJoinOrder(conns, n, a, b);
      }
    }
  }

  /** The neighbours of each node come out in the order of the entries that
      first connected them to it, as a JavaScript `Set` iterates in insertion
      order: neighbour `x` comes before neighbour `y` exactly when the first
      accepted entry joining the node to `x` comes before the first joining it
      to `y`. */
  lemma AdjacencyNeighbourOrder(conns: seq<RawConnection>, n: Node)
    requires n in AdjacencyOf(conns).neighbours
    ensures forall i :: 0 <= i < |AdjacencyOf(conns).neighbours[n]| ==>
      FirstJoin(conns, n, AdjacencyOf(conns).neighbours[n][i]) < |conns|
    ensures forall i, j :: 0 <= i < |AdjacencyOf(conns).neighbours[n]| && 0 <= j < |AdjacencyOf(conns).neighbours[n]| ==>
      (i < j <==> FirstJoin(conns, n, AdjacencyOf(conns).neighbours[n][i]) < FirstJoin(conns, n, AdjacencyOf(conns).neighbours[n][j]))
  {
    AdjacencyJoinOrder(conns, n);
    JoinOrderIff(conns, n, AdjacencyOf(conns).neighbours[n]);
  }
}
