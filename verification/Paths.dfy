/** Reachability along the edges of a finite graph */
module Paths {

  type Node = nat
  type Edges = map<Node, set<Node>>

  predicate Edge(e: Edges, c: Node, d: Node) {
    c in e && d in e[c]
  }

  /** The nodes of p, in order, lead from c to d. */
  predicate IsPath(e: Edges, c: Node, p: seq<Node>, d: Node)
    decreases |p|
  {
    if p == [] then c == d else Edge(e, c, p[0]) && IsPath(e, p[0], p[1..], d)
  }

  ghost predicate Reach(e: Edges, c: Node, d: Node) {
    exists p :: IsPath(e, c, p, d)
  }

  ghost predicate Acyclic(e: Edges) {
    forall c, d :: Edge(e, c, d) ==> !Reach(e, d, c)
  }

  lemma ReachSelf(e: Edges, c: Node)
    ensures Reach(e, c, c)
  {
    assert IsPath(e, c, [], c);
  }

  lemma ReachEdge(e: Edges, c: Node, d: Node, f: Node)
    requires Edge(e, c, d) && Reach(e, d, f)
    ensures Reach(e, c, f)
  {
    var p :| IsPath(e, d, p, f);
    var q := [d] + p;
    assert q[1..] == p;
    assert IsPath(e, c, q, f);
  }

  /** The first step of a path */
  lemma ReachFirst(e: Edges, c: Node, f: Node) returns (d: Node)
    requires Reach(e, c, f) && c != f
    ensures Edge(e, c, d) && Reach(e, d, f)
  {
    var p :| IsPath(e, c, p, f);
    d := p[0];
    assert IsPath(e, d, p[1..], f);
  }

  lemma ReachTransitive(e: Edges, c: Node, d: Node, f: Node)
    requires Reach(e, c, d) && Reach(e, d, f)
    ensures Reach(e, c, f)
  {
    var p :| IsPath(e, c, p, d);
    PathThenReach(e, c, p, d, f);
  }

  lemma {:induction false} PathThenReach(e: Edges, c: Node, p: seq<Node>, d: Node, f: Node)
    requires IsPath(e, c, p, d) && Reach(e, d, f)
    ensures Reach(e, c, f)
    decreases |p|
  {
    if p != [] {
      PathThenReach(e, p[0], p[1..], d, f);
      ReachEdge(e, c, p[0], f);
    }
  }

  /** What can be reached within a set: along an edge of an acyclic graph it shrinks. */
  ghost function ReachSet(e: Edges, nodes: set<Node>, c: Node): set<Node> {
    set d | d in nodes && Reach(e, c, d)
  }

  lemma ReachSetShrinks(e: Edges, nodes: set<Node>, c: Node, d: Node)
    requires Acyclic(e) && Edge(e, c, d) && c in nodes
    ensures ReachSet(e, nodes, d) < ReachSet(e, nodes, c)
  {
    forall f | f in ReachSet(e, nodes, d) ensures f in ReachSet(e, nodes, c) {
      ReachEdge(e, c, d, f);
    }
    ReachSelf(e, c);
    assert c in ReachSet(e, nodes, c) && c !in ReachSet(e, nodes, d);
  }

  // ----- adding edges

  ghost predicate EdgesWithin(e: Edges, e': Edges) {
    forall c, d :: Edge(e, c, d) ==> Edge(e', c, d)
  }

  lemma {:induction false} PathGrows(e: Edges, e': Edges, c: Node, p: seq<Node>, d: Node)
    requires EdgesWithin(e, e') && IsPath(e, c, p, d)
    ensures IsPath(e', c, p, d)
    decreases |p|
  {
    if p != [] {
      PathGrows(e, e', p[0], p[1..], d);
    }
  }

  lemma ReachGrows(e: Edges, e': Edges, c: Node, d: Node)
    requires EdgesWithin(e, e') && Reach(e, c, d)
    ensures Reach(e', c, d)
  {
    var p :| IsPath(e, c, p, d);
    PathGrows(e, e', c, p, d);
  }

  /** e' has the edges of e and the one from c to s. */
  ghost predicate OneMore(e: Edges, c: Node, s: Node, e': Edges) {
    forall x, y :: Edge(e', x, y) <==> Edge(e, x, y) || (x == c && y == s)
  }

  /** A path that uses a new edge gives a path to its source and one from its target. */
  lemma {:induction false} UsesNewEdge(e: Edges, c: Node, s: Node, e': Edges, x: Node, p: seq<Node>, y: Node)
    requires OneMore(e, c, s, e') && IsPath(e', x, p, y)
    ensures Reach(e, x, y) || (Reach(e, x, c) && Reach(e, s, y))
    decreases |p|
  {
    if p == [] {
      ReachSelf(e, x);
    } else {
      UsesNewEdge(e, c, s, e', p[0], p[1..], y);
      if Edge(e, x, p[0]) {
        if Reach(e, p[0], y) {
          ReachEdge(e, x, p[0], y);
        } else {
          ReachEdge(e, x, p[0], c);
        }
      } else {
        ReachSelf(e, c);
      }
    }
  }

  /** One more edge keeps the graph free of cycles exactly if its target did not reach its source. */
  lemma OneMoreAcyclic(e: Edges, c: Node, s: Node, e': Edges)
    requires Acyclic(e) && OneMore(e, c, s, e')
    ensures Acyclic(e') <==> !Reach(e, s, c)
  {
    if Reach(e, s, c) {
      ReachGrows(e, e', s, c);
      assert Edge(e', c, s);
    } else {
      forall x, y | Edge(e', x, y) ensures !Reach(e', y, x) {
        if Reach(e', y, x) {
          var p :| IsPath(e', y, p, x);
          UsesNewEdge(e, c, s, e', y, p, x);
          NoNewCycle(e, c, s, x, y);
        }
      }
    }
  }

  lemma NoNewCycle(e: Edges, c: Node, s: Node, x: Node, y: Node)
    requires Acyclic(e) && !Reach(e, s, c)
    requires Edge(e, x, y) || (x == c && y == s)
    ensures !(Reach(e, y, x) || (Reach(e, y, c) && Reach(e, s, x)))
  {
    if Edge(e, x, y) && Reach(e, y, c) && Reach(e, s, x) {
      ReachEdge(e, x, y, c);
      ReachTransitive(e, s, x, c);
    }
  }

  /** e' has the edges of e and some into n, from which no edge leaves. */
  ghost predicate DeadEnd(e: Edges, n: Node, e': Edges) {
    forall x, y :: (Edge(e', x, y) ==> x != n && (y == n || Edge(e, x, y))) && (Edge(e, x, y) ==> Edge(e', x, y))
  }

  /** Paths to elsewhere are old paths. */
  lemma {:induction false} AvoidsDeadEnd(e: Edges, n: Node, e': Edges, x: Node, p: seq<Node>, y: Node)
    requires DeadEnd(e, n, e') && y != n && IsPath(e', x, p, y)
    ensures IsPath(e, x, p, y) && x != n
    decreases |p|
  {
    if p != [] {
      AvoidsDeadEnd(e, n, e', p[0], p[1..], y);
    }
  }

  lemma DeadEndReach(e: Edges, n: Node, e': Edges, x: Node, y: Node)
    requires DeadEnd(e, n, e') && y != n
    ensures Reach(e', x, y) <==> Reach(e, x, y)
  {
    if Reach(e', x, y) {
      var p :| IsPath(e', x, p, y);
      AvoidsDeadEnd(e, n, e', x, p, y);
    }
    if Reach(e, x, y) {
      ReachGrows(e, e', x, y);
    }
  }

  /** A path into the dead end goes, by old edges, to a node with a new edge. */
  lemma DeadEndEntry(e: Edges, n: Node, e': Edges, x: Node) returns (b: Node)
    requires DeadEnd(e, n, e') && x != n && Reach(e', x, n)
    ensures Reach(e, x, b) && Edge(e', b, n) && b != n
  {
    var p :| IsPath(e', x, p, n);
    b := PathEntry(e, n, e', x, p);
  }

  lemma {:induction false} PathEntry(e: Edges, n: Node, e': Edges, x: Node, p: seq<Node>) returns (b: Node)
    requires DeadEnd(e, n, e') && x != n && IsPath(e', x, p, n)
    ensures Reach(e, x, b) && Edge(e', b, n) && b != n
    decreases |p|
  {
    if p[0] == n {
      b := x;
      ReachSelf(e, x);
    } else {
      b := PathEntry(e, n, e', p[0], p[1..]);
      ReachEdge(e, x, p[0], b);
    }
  }

  lemma DeadEndAcyclic(e: Edges, n: Node, e': Edges)
    requires DeadEnd(e, n, e') && Acyclic(e)
    ensures Acyclic(e')
  {
    forall x, y | Edge(e', x, y) ensures !Reach(e', y, x) {
      if Reach(e', y, x) {
        var p :| IsPath(e', y, p, x);
        AvoidsDeadEnd(e, n, e', y, p, x);
      }
    }
  }
}
