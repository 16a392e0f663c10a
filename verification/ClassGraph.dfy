/**
 The graph behind abstract base classes: which classes derive from which, and which are registered
 with which.  A class counts as a subclass of c when something reachable from c, along subclass and
 registry edges, is among its ancestors.
 */
module ClassGraph {
  import opened Paths

  type Cls = Node

  /** Ancestors of every class; direct subclasses and registered classes of every abstract base class */
  datatype Graph = Graph(mro: map<Cls, set<Cls>>, subs: map<Cls, set<Cls>>, registry: map<Cls, set<Cls>>)

  function EdgesOf(subs: map<Cls, set<Cls>>, registry: map<Cls, set<Cls>>): Edges {
    map c | c in subs && c in registry :: subs[c] + registry[c]
  }

  /** Every class is its own ancestor, and ancestors of ancestors are ancestors. */
  ghost predicate Ancestry(mro: map<Cls, set<Cls>>) {
    && (forall c :: c in mro ==> c in mro[c])
    && (forall c, d, f :: c in mro && d in mro[c] && d in mro && f in mro[d] ==> f in mro[c])
  }

  /** Whatever derives from an abstract base class is one; __subclasses__() lists only derived classes ... */
  ghost predicate SubsSound(g: Graph) {
    forall c, s :: Edge(g.subs, c, s) ==> s in g.mro && c in g.mro[s]
  }

  /** ... and the first step of every derivation. */
  ghost predicate SubsComplete(g: Graph) {
    forall c, s :: c in g.subs && s in g.mro && c in g.mro[s] && s != c ==> FirstStep(g, c, s)
  }

  ghost predicate FirstStep(g: Graph, c: Cls, s: Cls) {
    exists d :: Edge(g.subs, c, d) && s in g.mro && d in g.mro[s]
  }

  ghost predicate AbcsInherit(g: Graph) {
    forall c, s :: c in g.subs && s in g.mro && c in g.mro[s] ==> s in g.subs
  }

  ghost predicate Known(g: Graph) {
    && g.subs.Keys == g.registry.Keys <= g.mro.Keys
    && (forall c, d :: c in g.mro && d in g.mro[c] ==> d in g.mro)
    && (forall c, s :: Edge(g.registry, c, s) ==> s in g.mro)
  }

  ghost predicate WellFormed(g: Graph) {
    Known(g) && Ancestry(g.mro) && SubsSound(g) && SubsComplete(g) && AbcsInherit(g)
  }

  ghost predicate Valid(g: Graph) {
    WellFormed(g) && Acyclic(EdgesOf(g.subs, g.registry))
  }

  /** The uncached subclass relation */
  ghost predicate Below(mro: map<Cls, set<Cls>>, e: Edges, s: Cls, c: Cls) {
    s in mro && exists d :: d in mro[s] && Reach(e, c, d)
  }

  ghost predicate Sub(g: Graph, s: Cls, c: Cls) {
    Below(g.mro, EdgesOf(g.subs, g.registry), s, c)
  }

  // ----- one step

  /** One step of the check decides the relation. */
  lemma BelowStep(mro: map<Cls, set<Cls>>, e: Edges, s: Cls, c: Cls)
    requires s in mro
    ensures Below(mro, e, s, c) <==> c in mro[s] || exists d :: Edge(e, c, d) && Below(mro, e, s, d)
  {
    if Below(mro, e, s, c) && c !in mro[s] {
      var f :| f in mro[s] && Reach(e, c, f);
      var d := ReachFirst(e, c, f);
      assert Below(mro, e, s, d);
    }
    if c in mro[s] {
      ReachSelf(e, c);
    }
    if exists d :: Edge(e, c, d) && Below(mro, e, s, d) {
      var d :| Edge(e, c, d) && Below(mro, e, s, d);
      BelowEdge(mro, e, s, c, d);
    }
  }

  lemma BelowEdge(mro: map<Cls, set<Cls>>, e: Edges, s: Cls, c: Cls, d: Cls)
    requires Edge(e, c, d) && Below(mro, e, s, d)
    ensures Below(mro, e, s, c)
  {
    var f :| f in mro[s] && Reach(e, d, f);
    ReachEdge(e, c, d, f);
  }

  lemma BelowReach(mro: map<Cls, set<Cls>>, e: Edges, s: Cls, c: Cls, d: Cls)
    requires Reach(e, c, d) && Below(mro, e, s, d)
    ensures Below(mro, e, s, c)
  {
    var f :| f in mro[s] && Reach(e, d, f);
    ReachTransitive(e, c, d, f);
  }

  // ----- laws of the relation

  lemma SubReflexive(g: Graph, c: Cls)
    requires WellFormed(g) && c in g.mro
    ensures Sub(g, c, c)
  {
    ReachSelf(EdgesOf(g.subs, g.registry), c);
  }

  /** A descendant of a subclass is a subclass. */
  lemma BelowInherits(mro: map<Cls, set<Cls>>, e: Edges, s: Cls, t: Cls, c: Cls)
    requires Ancestry(mro) && t in mro && s in mro[t] && Below(mro, e, s, c)
    ensures Below(mro, e, t, c)
  {
    var d :| d in mro[s] && Reach(e, c, d);
  }

  /** Every class registered with something reachable from b is a subclass of c. */
  ghost predicate RegistrationsWithin(g: Graph, b: Cls, c: Cls) {
    forall d, r :: Reach(EdgesOf(g.subs, g.registry), b, d) && Edge(g.registry, d, r) ==> Sub(g, r, c)
  }

  /** Every subclass of b is a subclass of c. */
  ghost predicate SubsWithin(g: Graph, b: Cls, c: Cls) {
    forall a :: Sub(g, a, b) ==> Sub(g, a, c)
  }

  /**
   When b is a subclass of c, every subclass of b is one of c exactly if the classes registered
   below b are.
   */
  lemma SubTransitiveIff(g: Graph, b: Cls, c: Cls)
    requires WellFormed(g) && Sub(g, b, c)
    ensures SubsWithin(g, b, c) <==> RegistrationsWithin(g, b, c)
  {
    if RegistrationsWithin(g, b, c) {
      forall a | Sub(g, a, b) ensures Sub(g, a, c) {
        TransitiveFrom(g, a, b, c);
      }
    }
    if SubsWithin(g, b, c) {
      forall d, r | Reach(EdgesOf(g.subs, g.registry), b, d) && Edge(g.registry, d, r) ensures Sub(g, r, c) {
        RegisteredBelow(g, b, d, r);
      }
    }
  }

  lemma RegisteredBelow(g: Graph, b: Cls, d: Cls, r: Cls)
    requires WellFormed(g) && Reach(EdgesOf(g.subs, g.registry), b, d) && Edge(g.registry, d, r)
    ensures Sub(g, r, b)
  {
    var e := EdgesOf(g.subs, g.registry);
    SubReflexive(g, r);
    BelowEdge(g.mro, e, r, d, r);
    BelowReach(g.mro, e, r, b, d);
  }

  lemma TransitiveFrom(g: Graph, a: Cls, b: Cls, c: Cls)
    requires WellFormed(g) && Sub(g, b, c) && RegistrationsWithin(g, b, c) && Sub(g, a, b)
    ensures Sub(g, a, c)
  {
    var e := EdgesOf(g.subs, g.registry);
    var d :| d in g.mro[a] && Reach(e, b, d);
    var p :| IsPath(e, b, p, d);
    ReachSelf(e, b);
    AlongPath(g, b, b, p, d, c);
    BelowInherits(g.mro, e, d, a, c);
  }

  /** Along a path from b everything stays a subclass of c. */
  lemma {:induction false} AlongPath(g: Graph, b: Cls, x: Cls, p: seq<Cls>, d: Cls, c: Cls)
    requires WellFormed(g) && RegistrationsWithin(g, b, c)
    requires Reach(EdgesOf(g.subs, g.registry), b, x) && IsPath(EdgesOf(g.subs, g.registry), x, p, d) && Sub(g, x, c)
    ensures Sub(g, d, c)
    decreases |p|
  {
    if p != [] {
      var e, y := EdgesOf(g.subs, g.registry), p[0];
      if Edge(g.subs, x, y) {
        BelowInherits(g.mro, e, x, y, c);
      }
      ReachSelf(e, y);
      ReachEdge(e, x, y, y);
      ReachTransitive(e, b, x, y);
      AlongPath(g, b, y, p[1..], d, c);
    }
  }

  /** An abstract base class reaches everything derived from it. */
  lemma {:induction false} ReachDerived(g: Graph, c: Cls, s: Cls)
    requires Valid(g) && c in g.subs && s in g.mro && c in g.mro[s]
    ensures Reach(EdgesOf(g.subs, g.registry), c, s)
    decreases ReachSet(EdgesOf(g.subs, g.registry), g.mro.Keys, c)
  {
    var e := EdgesOf(g.subs, g.registry);
    if c == s {
      ReachSelf(e, c);
    } else {
      assert FirstStep(g, c, s);
      var d :| Edge(g.subs, c, d) && d in g.mro[s];
      assert Edge(e, c, d);
      ReachSetShrinks(e, g.mro.Keys, c, d);
      ReachDerived(g, d, s);
      ReachEdge(e, c, d, s);
    }
  }

  ghost predicate OnlyAbcsRegistered(g: Graph) {
    forall c, s :: Edge(g.registry, c, s) ==> s in g.subs
  }

  /** Among abstract base classes the relation is transitive: only a registered ordinary class can break it. */
  lemma SubTransitive(g: Graph, a: Cls, b: Cls, c: Cls)
    requires Valid(g) && c in g.subs && OnlyAbcsRegistered(g)
    requires Sub(g, a, b) && Sub(g, b, c)
    ensures Sub(g, a, c)
  {
    var e := EdgesOf(g.subs, g.registry);
    var f :| f in g.mro[b] && Reach(e, c, f);
    var p :| IsPath(e, c, p, f);
    PathOfAbcs(g, c, p, f);
    ReachDerived(g, f, b);
    ReachTransitive(e, c, f, b);
    BelowReach(g.mro, e, a, c, b);
  }

  lemma {:induction false} PathOfAbcs(g: Graph, x: Cls, p: seq<Cls>, y: Cls)
    requires WellFormed(g) && OnlyAbcsRegistered(g) && IsPath(EdgesOf(g.subs, g.registry), x, p, y) && x in g.subs
    ensures y in g.subs
    decreases |p|
  {
    if p != [] {
      assert Edge(g.subs, x, p[0]) || Edge(g.registry, x, p[0]);
      PathOfAbcs(g, p[0], p[1..], y);
    }
  }

  // ----- growing the graph

  /** More edges never take a subclass away. */
  lemma BelowGrows(mro: map<Cls, set<Cls>>, e: Edges, mro': map<Cls, set<Cls>>, e': Edges, s: Cls, c: Cls)
    requires EdgesWithin(e, e') && Below(mro, e, s, c) && s in mro' && mro[s] <= mro'[s]
    ensures Below(mro', e', s, c)
  {
    var d :| d in mro[s] && Reach(e, c, d);
    ReachGrows(e, e', c, d);
  }

  function Registered(g: Graph, c: Cls, s: Cls): Graph
    requires c in g.registry
  {
    g.(registry := g.registry[c := g.registry[c] + {s}])
  }

  /** Registering s with c keeps the graph free of cycles exactly when c was not yet a subclass of s. */
  lemma RegisterKeepsAcyclic(g: Graph, c: Cls, s: Cls)
    requires Valid(g) && c in g.subs && s in g.mro
    ensures WellFormed(Registered(g, c, s))
    ensures !Sub(g, c, s) ==> Valid(Registered(g, c, s))
    ensures s in g.subs && Sub(g, c, s) && OnlyAbcsRegistered(g) ==> !Valid(Registered(g, c, s))
    ensures forall x, y :: Sub(g, x, y) ==> Sub(Registered(g, c, s), x, y)
    ensures Sub(Registered(g, c, s), s, c)
  {
    var g' := Registered(g, c, s);
    var e, e' := EdgesOf(g.subs, g.registry), EdgesOf(g'.subs, g'.registry);
    assert OneMore(e, c, s, e');
    OneMoreAcyclic(e, c, s, e');
    RegisteredWellFormed(g, c, s);
    if Reach(e, s, c) {
      assert Sub(g, c, s);
    }
    if s in g.subs && Sub(g, c, s) && OnlyAbcsRegistered(g) {
      var f :| f in g.mro[c] && Reach(e, s, f);
      var p :| IsPath(e, s, p, f);
      PathOfAbcs(g, s, p, f);
      ReachDerived(g, f, c);
      ReachTransitive(e, s, f, c);
    }
    forall x, y | Sub(g, x, y) ensures Sub(g', x, y) {
      BelowGrows(g.mro, e, g'.mro, e', x, y);
    }
    ReachSelf(e', c);
    SubReflexive(g', s);
    BelowEdge(g'.mro, e', s, c, s);
  }

  /**
   Registering s with c makes exactly these new subclasses: the subclasses of s, of every class from
   which c can be reached.
   */
  lemma RegisteredSub(g: Graph, c: Cls, s: Cls, x: Cls, y: Cls)
    requires Valid(g) && c in g.subs && s in g.mro
    ensures Sub(Registered(g, c, s), x, y) <==>
            Sub(g, x, y) || (Sub(g, x, s) && Reach(EdgesOf(g.subs, g.registry), y, c))
  {
    var g' := Registered(g, c, s);
    var e, e' := EdgesOf(g.subs, g.registry), EdgesOf(g'.subs, g'.registry);
    assert OneMore(e, c, s, e');
    if Sub(g', x, y) {
      var d :| d in g'.mro[x] && Reach(e', y, d);
      var p :| IsPath(e', y, p, d);
      UsesNewEdge(e, c, s, e', y, p, d);
    }
    if Sub(g, x, y) {
      BelowGrows(g.mro, e, g'.mro, e', x, y);
    }
    if Sub(g, x, s) && Reach(e, y, c) {
      BelowGrows(g.mro, e, g'.mro, e', x, s);
      BelowEdge(g'.mro, e', x, c, s);
      ReachGrows(e, e', y, c);
      BelowReach(g'.mro, e', x, y, c);
    }
  }

  lemma RegisteredWellFormed(g: Graph, c: Cls, s: Cls)
    requires WellFormed(g) && c in g.subs && s in g.mro
    ensures WellFormed(Registered(g, c, s))
  {
    var g' := Registered(g, c, s);
    forall x, y | x in g'.subs && y in g'.mro && x in g'.mro[y] && y != x ensures FirstStep(g', x, y) {
      assert FirstStep(g, x, y);
    }
    forall x, y | Edge(g'.registry, x, y) ensures y in g'.mro {
      assert Edge(g.registry, x, y) || y == s;
    }
  }

  function Ancestors(mro: map<Cls, set<Cls>>, n: Cls, bases: set<Cls>): set<Cls>
    requires bases <= mro.Keys
  {
    {n} + (set b, d | b in bases && d in mro[b] :: d)
  }

  function WithSubclass(subs: map<Cls, set<Cls>>, n: Cls, bases: set<Cls>, abc: bool): map<Cls, set<Cls>> {
    var grown := map c | c in subs :: if c in bases then subs[c] + {n} else subs[c];
    if abc then grown[n := {}] else grown
  }

  /** A new class with the given direct bases, an abstract base class or an ordinary one */
  function Created(g: Graph, n: Cls, bases: set<Cls>, abc: bool): Graph
    requires bases <= g.mro.Keys
  {
    Graph(g.mro[n := Ancestors(g.mro, n, bases)], WithSubclass(g.subs, n, bases, abc),
          if abc then g.registry[n := {}] else g.registry)
  }

  /** A class can be created: its bases exist, and it is abstract if one of them is. */
  predicate CanCreate(g: Graph, n: Cls, bases: set<Cls>, abc: bool) {
    n !in g.mro && bases <= g.mro.Keys && forall b :: b in bases && b in g.subs ==> abc
  }

  lemma CreatedAncestry(g: Graph, n: Cls, bases: set<Cls>, abc: bool)
    requires WellFormed(g) && CanCreate(g, n, bases, abc)
    ensures Ancestry(Created(g, n, bases, abc).mro)
  {
    var mro' := Created(g, n, bases, abc).mro;
    forall c, d, f | c in mro' && d in mro'[c] && d in mro' && f in mro'[d] ensures f in mro'[c] {
      if c == n && d != n {
        var b :| b in bases && d in g.mro[b];
        assert f in g.mro[b];
      } else if c != n {
        assert d in g.mro;
      }
    }
  }

  lemma CreatedWellFormed(g: Graph, n: Cls, bases: set<Cls>, abc: bool)
    requires WellFormed(g) && CanCreate(g, n, bases, abc)
    ensures WellFormed(Created(g, n, bases, abc))
  {
    var g' := Created(g, n, bases, abc);
    CreatedAncestry(g, n, bases, abc);
    forall c, s | c in g'.subs && s in g'.mro && c in g'.mro[s] && s != c ensures FirstStep(g', c, s) {
      CreatedFirstStep(g, n, bases, abc, c, s);
    }
    forall c, s | c in g'.subs && s in g'.mro && c in g'.mro[s] ensures s in g'.subs {
      if s == n && c != n {
        var b :| b in bases && c in g.mro[b];
        assert b in g.subs;
      }
    }
    forall c, s | Edge(g'.subs, c, s) ensures s in g'.mro && c in g'.mro[s] {
      if Edge(g.subs, c, s) {
        assert s in g.mro;
      } else {
        assert s == n && c in bases && c in g.mro[c];
      }
    }
    forall c, s | Edge(g'.registry, c, s) ensures s in g'.mro {
      assert Edge(g.registry, c, s);
    }
  }

  lemma CreatedFirstStep(g: Graph, n: Cls, bases: set<Cls>, abc: bool, c: Cls, s: Cls)
    requires WellFormed(g) && CanCreate(g, n, bases, abc)
    requires c in Created(g, n, bases, abc).subs && s in Created(g, n, bases, abc).mro
    requires c in Created(g, n, bases, abc).mro[s] && s != c
    ensures FirstStep(Created(g, n, bases, abc), c, s)
  {
    var g' := Created(g, n, bases, abc);
    if s == n {
      var b :| b in bases && c in g.mro[b];
      if b == c {
        assert Edge(g'.subs, c, n);
      } else {
        assert FirstStep(g, c, b);
        var d :| Edge(g.subs, c, d) && d in g.mro[b];
        assert Edge(g'.subs, c, d) && d in g'.mro[s];
      }
    } else {
      assert c in g.mro;
      assert FirstStep(g, c, s);
      var d :| Edge(g.subs, c, d) && d in g.mro[s];
      assert Edge(g'.subs, c, d);
    }
  }

  /**
   Between the classes of g nothing changes in h.  The new class n is a subclass of itself and of
   whatever one of its bases is a subclass of, and no other class is a subclass of it.
   */
  ghost predicate Inherits(g: Graph, n: Cls, bases: set<Cls>, h: Graph) {
    && (forall s, c :: s in g.mro ==> (Sub(h, s, c) <==> Sub(g, s, c)))
    && (forall c :: Sub(h, n, c) <==> c == n || exists b :: b in bases && Sub(g, b, c))
    && (forall s :: Sub(h, s, n) <==> s == n)
  }

  /** Creating a class closes no cycle, and the new class inherits from its bases. */
  lemma CreatedKeeps(g: Graph, n: Cls, bases: set<Cls>, abc: bool)
    requires Valid(g) && CanCreate(g, n, bases, abc)
    ensures Valid(Created(g, n, bases, abc))
    ensures Inherits(g, n, bases, Created(g, n, bases, abc))
  {
    var g' := Created(g, n, bases, abc);
    var e, e' := EdgesOf(g.subs, g.registry), EdgesOf(g'.subs, g'.registry);
    CreatedWellFormed(g, n, bases, abc);
    assert DeadEnd(e, n, e') by {
      forall x, y ensures Edge(e', x, y) ==> x != n && (y == n || Edge(e, x, y)) {
      }
      forall x, y ensures Edge(e, x, y) ==> Edge(e', x, y) {
      }
    }
    DeadEndAcyclic(e, n, e');
    forall s, c | s in g.mro ensures Sub(g', s, c) <==> Sub(g, s, c) {
      if Sub(g', s, c) {
        var d :| d in g'.mro[s] && Reach(e', c, d);
        assert d in g.mro;
        DeadEndReach(e, n, e', c, d);
      }
      if Sub(g, s, c) {
        BelowGrows(g.mro, e, g'.mro, e', s, c);
      }
    }
    forall c ensures Sub(g', n, c) <==> c == n || exists b :: b in bases && Sub(g, b, c) {
      CreatedInherits(g, n, bases, abc, g', c);
    }
    forall s ensures Sub(g', s, n) <==> s == n {
      NothingBelowNew(g, n, bases, abc, g', s);
    }
  }

  /** Inheritance: the new class is a subclass of what its bases are subclasses of. */
  lemma CreatedInherits(g: Graph, n: Cls, bases: set<Cls>, abc: bool, h: Graph, c: Cls)
    requires Valid(g) && CanCreate(g, n, bases, abc) && h == Created(g, n, bases, abc) && WellFormed(h)
    requires DeadEnd(EdgesOf(g.subs, g.registry), n, EdgesOf(h.subs, h.registry))
    ensures Sub(h, n, c) <==> c == n || exists b :: b in bases && Sub(g, b, c)
  {
    var e, e' := EdgesOf(g.subs, g.registry), EdgesOf(h.subs, h.registry);
    if c == n {
      SubReflexive(h, n);
    } else if Sub(h, n, c) {
      var b := InheritedFrom(g, n, bases, abc, h, c);
    }
    forall b | b in bases && Sub(g, b, c) ensures Sub(h, n, c) {
      BelowGrows(g.mro, e, h.mro, e', b, c);
      BelowInherits(h.mro, e', b, n, c);
    }
  }

  lemma EdgeToNew(g: Graph, n: Cls, bases: set<Cls>, abc: bool, h: Graph, b: Cls)
    requires WellFormed(g) && CanCreate(g, n, bases, abc) && h == Created(g, n, bases, abc)
    requires Edge(EdgesOf(h.subs, h.registry), b, n) && b != n
    ensures b in bases
  {
    assert !Edge(g.subs, b, n) && !Edge(g.registry, b, n);
  }

  lemma InheritedFrom(g: Graph, n: Cls, bases: set<Cls>, abc: bool, h: Graph, c: Cls) returns (b: Cls)
    requires Valid(g) && CanCreate(g, n, bases, abc) && h == Created(g, n, bases, abc)
    requires DeadEnd(EdgesOf(g.subs, g.registry), n, EdgesOf(h.subs, h.registry))
    requires c != n && Sub(h, n, c)
    ensures b in bases && Sub(g, b, c)
  {
    var e, e' := EdgesOf(g.subs, g.registry), EdgesOf(h.subs, h.registry);
    var d :| d in h.mro[n] && Reach(e', c, d);
    if d == n {
      b := DeadEndEntry(e, n, e', c);
      EdgeToNew(g, n, bases, abc, h, b);
      SubReflexive(g, b);
      BelowReach(g.mro, e, b, c, b);
    } else {
      b :| b in bases && d in g.mro[b];
      DeadEndReach(e, n, e', c, d);
    }
  }

  lemma NothingBelowNew(g: Graph, n: Cls, bases: set<Cls>, abc: bool, h: Graph, s: Cls)
    requires Valid(g) && CanCreate(g, n, bases, abc) && h == Created(g, n, bases, abc) && WellFormed(h)
    requires DeadEnd(EdgesOf(g.subs, g.registry), n, EdgesOf(h.subs, h.registry))
    ensures Sub(h, s, n) <==> s == n
  {
    if s == n {
      SubReflexive(h, n);
    } else if Sub(h, s, n) {
      var d :| d in h.mro[s] && Reach(EdgesOf(h.subs, h.registry), n, d);
      assert d in g.mro;
      var f := ReachFirst(EdgesOf(h.subs, h.registry), n, d);
    }
  }

  // ----- where transitivity fails

  /** Below an ordinary class there are only its descendants. */
  lemma BelowOrdinary(mro: map<Cls, set<Cls>>, e: Edges, s: Cls, c: Cls)
    requires c !in e && s in mro
    ensures Below(mro, e, s, c) <==> c in mro[s]
  {
    BelowStep(mro, e, s, c);
  }

  /** Classes 1 and 2 are abstract, 0 and 3 ordinary, and 1 derives from 0. */
  ghost predicate FourClasses(g: Graph, with1: set<Cls>, with2: set<Cls>) {
    && g.mro == map[0 := {0}, 1 := {0, 1}, 2 := {2}, 3 := {3}]
    && g.subs == map[1 := {}, 2 := {}]
    && g.registry.Keys == {1, 2} && g.registry[1] == with1 && g.registry[2] == with2
  }

  /**
   Among those four, registering 3 with 1 and then 0 with 2, neither of which is refused, makes 3 a
   subclass of 1 and 1 one of 2, but not 3 one of 2.
   */
  lemma TransitivityFails(g: Graph, g': Graph, h: Graph)
    requires FourClasses(g, {}, {}) && g' == Registered(g, 1, 3) && h == Registered(g', 2, 0)
    ensures Valid(g) && !Sub(g, 1, 3) && !Sub(g', 2, 0)
    ensures Valid(h) && Sub(h, 3, 1) && Sub(h, 1, 2) && !Sub(h, 3, 2)
  {
    FourAtFirst(g);
    assert g'.registry[1] == {3};
    FourAfterOne(g');
    assert h.registry[1] == {3} && h.registry[2] == {0};
    FourAtLast(h);
  }

  lemma FourAtFirst(g: Graph)
    requires FourClasses(g, {}, {})
    ensures Valid(g) && !Sub(g, 1, 3)
  {
    BelowOrdinary(g.mro, EdgesOf(g.subs, g.registry), 1, 3);
  }

  lemma FourAfterOne(g: Graph)
    requires FourClasses(g, {3}, {})
    ensures !Sub(g, 2, 0)
  {
    BelowOrdinary(g.mro, EdgesOf(g.subs, g.registry), 2, 0);
  }

  lemma FourAtLast(h: Graph)
    requires FourClasses(h, {3}, {0})
    ensures Valid(h) && Sub(h, 3, 1) && Sub(h, 1, 2) && !Sub(h, 3, 2)
  {
    var mro, e := h.mro, EdgesOf(h.subs, h.registry);
    BelowOrdinary(mro, e, 3, 3);
    BelowEdge(mro, e, 3, 1, 3);
    BelowOrdinary(mro, e, 1, 0);
    BelowEdge(mro, e, 1, 2, 0);
    BelowOrdinary(mro, e, 3, 0);
    BelowStep(mro, e, 3, 2);
  }
}
