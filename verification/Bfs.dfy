// The neighbourhood search behind the seeded graph view.
module Bfs {
  // Level by level, bounded by a number of hops and by a number of nodes, whichever is reached first.

  type Node = string
  type Adjacency = map<Node, seq<Node>>

  predicate Linked(adj: Adjacency, v: Node, w: Node) {
    v in adj && w in adj[v]
  }

  function Around(adj: Adjacency, near: set<Node>): set<Node> {
    set v, k | v in near && v in adj && 0 <= k < |adj[v]| :: adj[v][k]
  }

  /** The nodes at most `hops` away from `start`. */
  ghost function Ball(adj: Adjacency, start: Node, hops: nat): set<Node> {
    if hops == 0 then {start}
    else Ball(adj, start, hops - 1) + Around(adj, Ball(adj, start, hops - 1))
  }

  ghost predicate IsPath(adj: Adjacency, path: seq<Node>) {
    |path| > 0 && forall i :: 0 < i < |path| ==> Linked(adj, path[i - 1], path[i])
  }

  ghost predicate Joins(adj: Adjacency, start: Node, goal: Node, hops: nat, path: seq<Node>) {
    IsPath(adj, path) && path[0] == start && path[|path| - 1] == goal && |path| <= hops + 1
  }

  function Nodes(out: seq<Node>): set<Node> {
    set v | v in out
  }

  lemma AroundIsLinked(adj: Adjacency, near: set<Node>, w: Node)
    ensures w in Around(adj, near) <==> exists v :: v in near && Linked(adj, v, w)
  {
    if v :| v in near && Linked(adj, v, w) {
      var k :| 0 <= k < |adj[v]| && adj[v][k] == w;
      assert adj[v][k] in Around(adj, near);
    }
  }

  /** The ball is the set of nodes that some path of at most `hops` links reaches. */
  lemma {:induction false} BallIsPaths(adj: Adjacency, start: Node, goal: Node, hops: nat)
    ensures goal in Ball(adj, start, hops) <==> exists path :: Joins(adj, start, goal, hops, path)
  {
    if goal in Ball(adj, start, hops) {
      var path := PathTo(adj, start, goal, hops);
    }
    if path :| Joins(adj, start, goal, hops, path) {
      PathStaysInBall(adj, path);
      BallGrows(adj, start, |path| - 1, hops);
    }
  }

  lemma {:induction false} PathTo(adj: Adjacency, start: Node, goal: Node, hops: nat) returns (path: seq<Node>)
    requires goal in Ball(adj, start, hops)
    ensures Joins(adj, start, goal, hops, path)
    decreases hops
  {
    if hops == 0 {
      path := [start];
    } else if goal in Ball(adj, start, hops - 1) {
      path := PathTo(adj, start, goal, hops - 1);
    } else {
      AroundIsLinked(adj, Ball(adj, start, hops - 1), goal);
      var v :| v in Ball(adj, start, hops - 1) && Linked(adj, v, goal);
      var shorter := PathTo(adj, start, v, hops - 1);
      path := shorter + [goal];
    }
  }

  lemma {:induction false} PathStaysInBall(adj: Adjacency, path: seq<Node>)
    requires IsPath(adj, path)
    ensures path[|path| - 1] in Ball(adj, path[0], |path| - 1)
  {
    if |path| > 1 {
      var shorter := path[..|path| - 1];
      PathStaysInBall(adj, shorter);
      var near := Ball(adj, path[0], |path| - 2);
      assert Linked(adj, shorter[|shorter| - 1], path[|path| - 1]);
      AroundIsLinked(adj, near, path[|path| - 1]);
    }
  }

  lemma {:induction false} BallGrows(adj: Adjacency, start: Node, less: nat, more: nat)
    requires less <= more
    ensures Ball(adj, start, less) <= Ball(adj, start, more)
    decreases more
  {
    if less < more {
      BallGrows(adj, start, less, more - 1);
    }
  }

  /** Once a level adds nothing, no later level does. */
  lemma {:induction false} BallSettles(adj: Adjacency, start: Node, settled: nat, hops: nat)
    requires Ball(adj, start, settled + 1) == Ball(adj, start, settled)
    requires settled <= hops
    ensures Ball(adj, start, hops) == Ball(adj, start, settled)
    decreases hops
  {
    if settled < hops {
      BallSettles(adj, start, settled, hops - 1);
    }
  }

  // ----- what the search promises -----

  ghost predicate Distinct(out: seq<Node>) {
    forall i, j :: 0 <= i < j < |out| ==> out[i] != out[j]
  }

  /** Every node of `kept` is at least as near to the start as `v` is. */
  ghost predicate NoneFarther(adj: Adjacency, start: Node, kept: seq<Node>, v: Node) {
    forall u, d: nat :: u in kept && v in Ball(adj, start, d) ==> u in Ball(adj, start, d)
  }

  ghost predicate NearestFirst(adj: Adjacency, start: Node, out: seq<Node>) {
    forall i :: 0 <= i < |out| ==> NoneFarther(adj, start, out[..i], out[i])
  }

  /** The first `settled` nodes are the ball of `hop` links, in order of distance, and the rest lie
      one link farther out. */
  ghost predicate Layered(adj: Adjacency, start: Node, out: seq<Node>, settled: nat, hop: nat) {
    Layers(adj, start, out, settled, hop) && Distinct(out) && NearestFirst(adj, start, out)
  }

  ghost predicate Layers(adj: Adjacency, start: Node, out: seq<Node>, settled: nat, hop: nat) {
    && settled <= |out|
    && Nodes(out[..settled]) == Ball(adj, start, hop)
    && forall v :: v in out[settled..] ==> v in Ball(adj, start, hop + 1) && v !in Ball(adj, start, hop)
  }

  /** The nodes whose links are still to be followed are those at distance exactly `hop`. */
  ghost predicate IsFrontier(adj: Adjacency, start: Node, frontier: seq<Node>, hop: nat) {
    forall v :: v in frontier <==> v in Ball(adj, start, hop) && (hop == 0 || v !in Ball(adj, start, hop - 1))
  }

  /** Nodes outside the ball of `hop` links are no nearer than any node of a layered list. */
  lemma OutsideIsFarther(adj: Adjacency, start: Node, out: seq<Node>, settled: nat, hop: nat, v: Node)
    requires Layers(adj, start, out, settled, hop)
    requires v !in Ball(adj, start, hop)
    ensures NoneFarther(adj, start, out, v)
  {
    BallGrows(adj, start, hop, hop + 1);
    LayersAreNear(adj, start, out, settled, hop);
    forall u, d: nat | u in out && v in Ball(adj, start, d)
      ensures u in Ball(adj, start, d)
    {
      if d <= hop {
        BallGrows(adj, start, d, hop);
      } else {
        BallGrows(adj, start, hop + 1, d);
      }
    }
  }

  lemma LayersAreNear(adj: Adjacency, start: Node, out: seq<Node>, settled: nat, hop: nat)
    requires Layers(adj, start, out, settled, hop)
    ensures forall v :: v in out ==> v in Ball(adj, start, hop + 1)
    ensures forall v :: v in Ball(adj, start, hop) ==> v in out
    ensures forall v :: v in out[..settled] <==> v in Ball(adj, start, hop)
  {
    assert out == out[..settled] + out[settled..];
    forall v | v in Ball(adj, start, hop)
      ensures v in out[..settled]
    {
      assert v in Nodes(out[..settled]);
    }
    forall v | v in out[..settled]
      ensures v in Ball(adj, start, hop)
    {
      assert v in Nodes(out[..settled]);
    }
  }

  lemma OneMoreFarNode(adj: Adjacency, start: Node, out: seq<Node>, settled: nat, hop: nat, v: Node)
    requires Layered(adj, start, out, settled, hop)
    requires v !in out && v in Ball(adj, start, hop + 1)
    ensures Layered(adj, start, out + [v], settled, hop)
  {
    LayersExtend(adj, start, out, settled, hop, v);
    OutsideIsFarther(adj, start, out, settled, hop, v);
    NearestFirstExtends(adj, start, out, v);
    DistinctExtends(out, v);
  }

  lemma LayersExtend(adj: Adjacency, start: Node, out: seq<Node>, settled: nat, hop: nat, v: Node)
    requires Layers(adj, start, out, settled, hop)
    requires v !in out && v in Ball(adj, start, hop + 1)
    ensures v !in Ball(adj, start, hop)
    ensures Layers(adj, start, out + [v], settled, hop)
  {
    LayersAreNear(adj, start, out, settled, hop);
    var more := out + [v];
    assert more[..settled] == out[..settled];
    assert more[settled..] == out[settled..] + [v];
  }

  lemma DistinctExtends(out: seq<Node>, v: Node)
    requires Distinct(out) && v !in out
    ensures Distinct(out + [v])
  {
  }

  lemma OneMoreKept(out: seq<Node>, v: Node, settled: nat)
    requires settled <= |out|
    ensures Nodes(out + [v]) == Nodes(out) + {v}
    ensures (out + [v])[settled..] == out[settled..] + [v]
  {
  }

  lemma LinkIsOneFarther(adj: Adjacency, start: Node, frontier: seq<Node>, hop: nat, v: Node, w: Node)
    requires IsFrontier(adj, start, frontier, hop) && v in frontier && Linked(adj, v, w)
    ensures w in Ball(adj, start, hop + 1)
  {
    AroundIsLinked(adj, Ball(adj, start, hop), w);
  }

  /** Every link of the given nodes leads to a node already kept. */
  ghost predicate Followed(adj: Adjacency, from: seq<Node>, out: seq<Node>) {
    forall v, w :: v in from && Linked(adj, v, w) ==> w in out
  }

  ghost predicate AllKept(some: seq<Node>, out: seq<Node>) {
    forall w :: w in some ==> w in out
  }

  lemma NearestFirstExtends(adj: Adjacency, start: Node, out: seq<Node>, v: Node)
    requires NearestFirst(adj, start, out) && NoneFarther(adj, start, out, v)
    ensures NearestFirst(adj, start, out + [v])
  {
    var more := out + [v];
    forall i | 0 <= i < |more|
      ensures NoneFarther(adj, start, more[..i], more[i])
    {
      assert more[..i] == out[..i];
      assert i < |out| ==> more[i] == out[i];
      assert out[..|out|] == out;
    }
  }

  lemma StartAlone(adj: Adjacency, start: Node)
    ensures Layered(adj, start, [start], 1, 0)
    ensures IsFrontier(adj, start, [start], 0)
  {
    assert [start][..1] == [start];
  }

  /** When the links of every frontier node have been followed, the next ball is complete. */
  lemma LevelComplete(adj: Adjacency, start: Node, out: seq<Node>, settled: nat, hop: nat, frontier: seq<Node>)
    requires Layered(adj, start, out, settled, hop)
    requires IsFrontier(adj, start, frontier, hop)
    requires Followed(adj, frontier, out)
    ensures Nodes(out) == Ball(adj, start, hop + 1)
    ensures IsFrontier(adj, start, out[settled..], hop + 1)
  {
    var here := Ball(adj, start, hop);
    LayersAreNear(adj, start, out, settled, hop);
    assert out == out[..settled] + out[settled..];
    forall w | w in Ball(adj, start, hop + 1)
      ensures w in out
    {
      if w !in here {
        AroundIsLinked(adj, here, w);
        var v :| v in here && Linked(adj, v, w);
        assert v in frontier by {
          if hop > 0 {
            AroundIsLinked(adj, Ball(adj, start, hop - 1), w);
          }
        }
      }
    }
  }

  lemma LevelSettled(adj: Adjacency, start: Node, out: seq<Node>, settled: nat, hop: nat)
    requires Layered(adj, start, out, settled, hop)
    requires Nodes(out) == Ball(adj, start, hop + 1)
    ensures Layered(adj, start, out, |out|, hop + 1)
  {
    assert out[..|out|] == out;
  }

  /** What the list returned means to its reader. */
  ghost predicate Neighbourhood(adj: Adjacency, start: Node, depth: nat, limit: nat, out: seq<Node>) {
    && 0 < |out| <= limit && out[0] == start
    && Distinct(out)
    && NearestFirst(adj, start, out)
    && Nodes(out) <= Ball(adj, start, depth)
    && (|out| < limit ==> Nodes(out) == Ball(adj, start, depth))
    && forall v :: v in Ball(adj, start, depth) && v !in out ==> NoneFarther(adj, start, out, v)
  }

  lemma TruncatedIsNearest(adj: Adjacency, start: Node, depth: nat, limit: nat, out: seq<Node>, settled: nat, hop: nat)
    requires Layered(adj, start, out, settled, hop) && hop < depth
    requires |out| == limit && limit > 0 && out[0] == start
    ensures Neighbourhood(adj, start, depth, limit, out)
  {
    BallGrows(adj, start, hop + 1, depth);
    LayersAreNear(adj, start, out, settled, hop);
    forall v | v !in out
      ensures NoneFarther(adj, start, out, v)
    {
      OutsideIsFarther(adj, start, out, settled, hop, v);
    }
  }

  lemma CompleteIsNearest(adj: Adjacency, start: Node, depth: nat, limit: nat, out: seq<Node>, hop: nat)
    requires Layered(adj, start, out, |out|, hop) && hop <= depth
    requires 0 < |out| <= limit && out[0] == start
    requires |out| < limit ==> Ball(adj, start, depth) == Ball(adj, start, hop)
    ensures Neighbourhood(adj, start, depth, limit, out)
  {
    assert out[..|out|] == out;
    BallGrows(adj, start, hop, depth);
    forall v | v !in out
      ensures NoneFarther(adj, start, out, v)
    {
      assert v !in Nodes(out);
      OutsideIsFarther(adj, start, out, |out|, hop, v);
    }
  }

  method Search(adj: Adjacency, start: Node, depth: int, limit: int) returns (out: seq<Node>)
    ensures start == "" || limit <= 0 ==> out == []
    ensures start != "" && limit > 0 ==> Neighbourhood(adj, start, if depth < 0 then 0 else depth, limit, out)
  {
    if start == "" || limit <= 0 {
      return [];
    }
    var seen: set<Node> := {start};
    out := [start];
    var frontier := [start];
    var hop := 0;
    ghost var bound := if depth < 0 then 0 else depth;
    StartAlone(adj, start);
    while hop < depth && |out| < limit
      invariant 0 <= hop <= bound
      invariant 0 < |out| <= limit && out[0] == start && seen == Nodes(out)
      invariant Layered(adj, start, out, |out|, hop)
      invariant IsFrontier(adj, start, frontier, hop)
      decreases depth - hop
    {
      var next: seq<Node> := [];
      ghost var settled := |out|;
      for i := 0 to |frontier|
        invariant 0 < |out| < limit && out[0] == start && seen == Nodes(out)
        invariant Layered(adj, start, out, settled, hop) && next == out[settled..]
        invariant Followed(adj, frontier[..i], out)
      {
        var id := frontier[i];
        var links := if id in adj then adj[id] else [];
        for j := 0 to |links|
          invariant 0 < |out| < limit && out[0] == start && seen == Nodes(out)
          invariant Layered(adj, start, out, settled, hop)
          invariant next == out[settled..]
          invariant Followed(adj, frontier[..i], out)
          invariant AllKept(links[..j], out)
        {
          var nb := links[j];
          assert links[..j + 1] == links[..j] + [nb];
          if nb in seen {
            continue;
          }
          LinkIsOneFarther(adj, start, frontier, hop, id, nb);
          OneMoreKept(out, nb, settled);
          OneMoreFarNode(adj, start, out, settled, hop, nb);
          seen := seen + {nb};
          out := out + [nb];
          next := next + [nb];
          if |out| >= limit {
            TruncatedIsNearest(adj, start, depth, limit, out, settled, hop);
            return;
          }
        }
        assert links[..|links|] == links;
        assert frontier[..i + 1] == frontier[..i] + [id];
      }
      assert frontier[..|frontier|] == frontier;
      LevelComplete(adj, start, out, settled, hop, frontier);
      if |next| == 0 {
        assert out[..settled] == out;
        BallSettles(adj, start, hop, bound);
        break;
      }
      LevelSettled(adj, start, out, settled, hop);
      frontier := next;
      hop := hop + 1;
    }
    CompleteIsNearest(adj, start, bound, limit, out, hop);
  }

  // ----- the links come from undirected edges -----

  datatype Edge = Edge(src: Node, dst: Node)

  ghost predicate Touching(edges: seq<Edge>, v: Node, w: Node) {
    Edge(v, w) in edges || Edge(w, v) in edges
  }

  function Extended(adj: Adjacency, v: Node, w: Node): Adjacency {
    adj[v := (if v in adj then adj[v] else []) + [w]]
  }

  method BuildLinks(edges: seq<Edge>) returns (adj: Adjacency)
    ensures forall v, w :: Linked(adj, v, w) <==> Touching(edges, v, w)
  {
    adj := map[];
    for i := 0 to |edges|
      invariant forall v, w :: Linked(adj, v, w) <==> Touching(edges[..i], v, w)
    {
      var e := edges[i];
      ghost var before := adj;
      adj := Extended(adj, e.src, e.dst);
      adj := Extended(adj, e.dst, e.src);
      assert edges[..i + 1] == edges[..i] + [e];
      forall v, w
        ensures Linked(adj, v, w) <==> Touching(edges[..i + 1], v, w)
      {
        assert Linked(adj, v, w) <==> Linked(before, v, w) || Edge(v, w) == e || Edge(w, v) == e;
        assert Touching(edges[..i + 1], v, w) <==> Touching(edges[..i], v, w) || Edge(v, w) == e || Edge(w, v) == e;
      }
    }
    assert edges[..|edges|] == edges;
  }

  function Backwards(path: seq<Node>): seq<Node> {
    seq(|path|, i requires 0 <= i < |path| => path[|path| - 1 - i])
  }

  /** With links in both directions, who is near whom does not depend on the side one starts from. */
  lemma NearnessIsMutual(adj: Adjacency, u: Node, v: Node, hops: nat)
    requires forall a, b :: Linked(adj, a, b) ==> Linked(adj, b, a)
    requires v in Ball(adj, u, hops)
    ensures u in Ball(adj, v, hops)
  {
    var path := PathTo(adj, u, v, hops);
    assert Joins(adj, v, u, hops, Backwards(path));
    BallIsPaths(adj, v, u, hops);
  }

  /** A larger limit keeps at least as many nodes, and what a smaller one keeps is no farther than
      anything only the larger one shows. */
  lemma LimitCutsTheFarEdge(adj: Adjacency, start: Node, depth: nat, small: nat, large: nat, less: seq<Node>,
                            more: seq<Node>)
    requires Neighbourhood(adj, start, depth, small, less)
    requires Neighbourhood(adj, start, depth, large, more)
    requires small <= large
    ensures |less| <= |more|
    ensures forall u, v :: u in less && v in more && v !in less ==> NoneFarther(adj, start, [u], v)
  {
    if |more| < |less| {
      assert |more| < large;
      assert Nodes(less) <= Nodes(more);
      DistinctCount(less);
      DistinctCount(more);
      CountGrows(Nodes(less), Nodes(more));
    }
    forall u, v | u in less && v in more && v !in less
      ensures NoneFarther(adj, start, [u], v)
    {
      assert v in Nodes(more);
    }
  }

  lemma CountGrows(a: set<Node>, b: set<Node>)
    requires a <= b
    ensures |a| <= |b|
  {
    assert b == a + (b - a);
  }

  lemma {:induction false} DistinctCount(out: seq<Node>)
    requires Distinct(out)
    ensures |Nodes(out)| == |out|
  {
    if out != [] {
      var rest := out[..|out| - 1];
      DistinctCount(rest);
      assert out == rest + [out[|out| - 1]];
      assert Nodes(out) == Nodes(rest) + {out[|out| - 1]};
    }
  }
}
