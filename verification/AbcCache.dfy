/**
 The state behind abstract base classes: the class graph together with, for each abstract base class,
 the cache of classes known to be its subclasses, the cache of classes known not to be, and the value
 of the global invalidation counter for which the latter was filled.
 */
module AbcCache {
  import opened Paths
  import opened ClassGraph
  import opened PythonText

  datatype Answer = Yes | No | TypeError
  datatype Registration = Done | AlreadySubclass | CycleRefused | NotAClass

  /** Positive entries are true. */
  ghost predicate Yeses(g: Graph, cache: map<Cls, set<Cls>>) {
    forall c, s :: Edge(cache, c, s) ==> Sub(g, s, c)
  }

  /** Negative entries of the current version are true, and no version is ahead of the counter. */
  ghost predicate Noes(g: Graph, negCache: map<Cls, set<Cls>>, version: map<Cls, int>, counter: int) {
    && negCache.Keys == version.Keys == g.subs.Keys
    && (forall c :: c in version ==> version[c] <= counter)
    && (forall c, s :: Edge(negCache, c, s) ==> s in g.mro && (version[c] == counter ==> !Sub(g, s, c)))
  }

  lemma YesHolds(g: Graph, cache: map<Cls, set<Cls>>, c: Cls, s: Cls)
    requires Yeses(g, cache) && c in cache && s in cache[c]
    ensures Sub(g, s, c) && s in g.mro
  {
    assert Edge(cache, c, s);
  }

  lemma NoHolds(g: Graph, negCache: map<Cls, set<Cls>>, version: map<Cls, int>, counter: int, c: Cls, s: Cls)
    requires Noes(g, negCache, version, counter) && c in g.subs && s in negCache[c] && version[c] >= counter
    ensures s in g.mro && !Sub(g, s, c) && version[c] == counter
  {
    assert Edge(negCache, c, s);
  }

  lemma YesAdded(g: Graph, cache: map<Cls, set<Cls>>, c: Cls, s: Cls)
    requires Yeses(g, cache) && c in cache && Sub(g, s, c)
    ensures Yeses(g, cache[c := cache[c] + {s}]) && EdgesWithin(cache, cache[c := cache[c] + {s}])
  {
  }

  lemma NoAdded(g: Graph, negCache: map<Cls, set<Cls>>, version: map<Cls, int>, counter: int, c: Cls, s: Cls)
    requires Noes(g, negCache, version, counter) && c in g.subs && s in g.mro && !Sub(g, s, c)
    ensures Noes(g, negCache[c := negCache[c] + {s}], version, counter)
  {
    forall x, y | Edge(negCache[c := negCache[c] + {s}], x, y) && !(x == c && y == s) ensures Edge(negCache, x, y) {
    }
  }

  lemma Emptied(g: Graph, cache: map<Cls, set<Cls>>, negCache: map<Cls, set<Cls>>,
                version: map<Cls, int>, counter: int, c: Cls)
    requires Yeses(g, cache) && Noes(g, negCache, version, counter) && c in g.subs
    ensures Yeses(g, cache[c := {}])
    ensures Noes(g, negCache[c := {}], version, counter)
    ensures Noes(g, negCache[c := {}], version[c := counter], counter)
  {
    forall x, y | Edge(negCache[c := {}], x, y) ensures x != c && Edge(negCache, x, y) {
    }
    forall x, y | Edge(cache[c := {}], x, y) ensures Edge(cache, x, y) {
    }
  }

  lemma EdgeKnown(g: Graph, c: Cls, d: Cls)
    requires ClassGraph.Valid(g) && Edge(EdgesOf(g.subs, g.registry), c, d)
    ensures c in g.mro && d in g.mro
    ensures ReachSet(EdgesOf(g.subs, g.registry), g.mro.Keys, d) < ReachSet(EdgesOf(g.subs, g.registry), g.mro.Keys, c)
  {
    assert Edge(g.subs, c, d) || Edge(g.registry, c, d);
    ReachSetShrinks(EdgesOf(g.subs, g.registry), g.mro.Keys, c, d);
  }

  /** Entries stay true in a graph h that answers the same about the classes of g; a new class n starts empty. */
  lemma CachesCarryOver(g: Graph, h: Graph, n: Cls, abc: bool, cache: map<Cls, set<Cls>>,
                        negCache: map<Cls, set<Cls>>, version: map<Cls, int>, counter: int)
    requires forall s, c :: s in g.mro ==> (Sub(h, s, c) <==> Sub(g, s, c))
    requires g.mro.Keys <= h.mro.Keys && h.subs.Keys == if abc then g.subs.Keys + {n} else g.subs.Keys
    requires Yeses(g, cache) && Noes(g, negCache, version, counter)
    ensures Yeses(h, if abc then cache[n := {}] else cache)
    ensures Noes(h, if abc then negCache[n := {}] else negCache, if abc then version[n := counter] else version,
                 counter)
  {
    var cache', negCache' := if abc then cache[n := {}] else cache, if abc then negCache[n := {}] else negCache;
    forall x, y | Edge(cache', x, y) ensures Sub(h, y, x) {
      assert Edge(cache, x, y);
    }
    forall x, y | Edge(negCache', x, y) ensures Edge(negCache, x, y) && !(abc && x == n) {
    }
  }

  lemma CreatedKeys(g: Graph, n: Cls, bases: set<Cls>, abc: bool, h: Graph,
                    cache: map<Cls, set<Cls>>, cache': map<Cls, set<Cls>>)
    requires CanCreate(g, n, bases, abc) && h == Created(g, n, bases, abc) && cache.Keys == g.subs.Keys
    requires cache' == if abc then cache[n := {}] else cache
    ensures h.subs.Keys == if abc then g.subs.Keys + {n} else g.subs.Keys
    ensures cache'.Keys == h.subs.Keys
  {
  }

  lemma CreatedCaches(g: Graph, n: Cls, bases: set<Cls>, abc: bool, h: Graph, counter: int,
                      cache: map<Cls, set<Cls>>, negCache: map<Cls, set<Cls>>, version: map<Cls, int>,
                      cache': map<Cls, set<Cls>>, negCache': map<Cls, set<Cls>>, version': map<Cls, int>)
    requires ClassGraph.Valid(g) && CanCreate(g, n, bases, abc) && h == Created(g, n, bases, abc)
    requires cache.Keys == g.subs.Keys && Yeses(g, cache) && Noes(g, negCache, version, counter)
    requires cache' == if abc then cache[n := {}] else cache
    requires negCache' == if abc then negCache[n := {}] else negCache
    requires version' == if abc then version[n := counter] else version
    ensures ClassGraph.Valid(h) && Inherits(g, n, bases, h)
    ensures cache'.Keys == h.subs.Keys && Yeses(h, cache') && Noes(h, negCache', version', counter)
  {
    CreatedKeeps(g, n, bases, abc);
    CreatedKeys(g, n, bases, abc, h, cache, cache');
    CachesCarryOver(g, h, n, abc, cache, negCache, version, counter);
  }

  lemma RegisteredCaches(g: Graph, c: Cls, s: Cls, h: Graph, cache: map<Cls, set<Cls>>,
                         negCache: map<Cls, set<Cls>>, version: map<Cls, int>, counter: int)
    requires ClassGraph.Valid(g) && c in g.subs && s in g.mro && !Sub(g, c, s) && h == Registered(g, c, s)
    requires Yeses(g, cache) && Noes(g, negCache, version, counter)
    ensures ClassGraph.Valid(h) && Sub(h, s, c)
    ensures forall x, y :: Sub(h, x, y) <==>
                           Sub(g, x, y) || (Sub(g, x, s) && Reach(EdgesOf(g.subs, g.registry), y, c))
    ensures Yeses(h, cache) && Noes(h, negCache, version, counter + 1)
  {
    RegisterKeepsAcyclic(g, c, s);
    forall x, y ensures Sub(h, x, y) <==>
                        Sub(g, x, y) || (Sub(g, x, s) && Reach(EdgesOf(g.subs, g.registry), y, c)) {
      RegisteredSub(g, c, s, x, y);
    }
  }

  class World {
    var mro: map<Cls, set<Cls>>
    var subs: map<Cls, set<Cls>>
    var registry: map<Cls, set<Cls>>
    var cache: map<Cls, set<Cls>>
    var negCache: map<Cls, set<Cls>>
    var negVersion: map<Cls, int>
    var counter: int

    ghost function G(): Graph
      reads this`mro, this`subs, this`registry
    {
      Graph(mro, subs, registry)
    }

    ghost predicate GraphSound()
      reads this`mro, this`subs, this`registry
    {
      ClassGraph.Valid(G())
    }

    ghost predicate CachesSound()
      reads this
    {
      cache.Keys == subs.Keys && Yeses(G(), cache) && Noes(G(), negCache, negVersion, counter)
    }

    constructor ()
      ensures GraphSound() && CachesSound() && G() == Graph(map[], map[], map[]) && counter == 0
    {
      mro, subs, registry, cache, negCache, negVersion, counter := map[], map[], map[], map[], map[], map[], 0;
    }

    /** A class statement: an abstract base class also gets its registry and caches. */
    method NewClass(n: Cls, bases: set<Cls>, abc: bool)
      requires GraphSound() && CachesSound() && CanCreate(G(), n, bases, abc)
      modifies this
      ensures GraphSound() && CachesSound()
      ensures G() == Created(old(G()), n, bases, abc) && counter == old(counter)
      ensures Inherits(old(G()), n, bases, G())
      ensures cache == (if abc then old(cache)[n := {}] else old(cache))
      ensures negCache == (if abc then old(negCache)[n := {}] else old(negCache))
      ensures negVersion == (if abc then old(negVersion)[n := counter] else old(negVersion))
    {
      ghost var g, yes, no, version := G(), cache, negCache, negVersion;
      if abc {
        NewAbc(n, bases);
        CreatedCaches(g, n, bases, true, G(), counter, yes, no, version, cache, negCache, negVersion);
      } else {
        NewOrdinary(n, bases);
        CreatedCaches(g, n, bases, false, G(), counter, yes, no, version, cache, negCache, negVersion);
      }
    }

    method NewOrdinary(n: Cls, bases: set<Cls>)
      requires bases <= mro.Keys
      modifies this`mro, this`subs
      ensures G() == Created(old(G()), n, bases, false)
    {
      mro := mro[n := Ancestors(mro, n, bases)];
      subs := WithSubclass(subs, n, bases, false);
    }

    /** Both parts of the creation of an abstract base class: the class, and its registry and caches */
    method NewAbc(n: Cls, bases: set<Cls>)
      requires bases <= mro.Keys
      modifies this
      ensures G() == Created(old(G()), n, bases, true) && counter == old(counter)
      ensures cache == old(cache)[n := {}] && negCache == old(negCache)[n := {}]
      ensures negVersion == old(negVersion)[n := counter]
    {
      mro := mro[n := Ancestors(mro, n, bases)];
      subs := WithSubclass(subs, n, bases, true);
      registry, cache, negCache := registry[n := {}], cache[n := {}], negCache[n := {}];
      negVersion := negVersion[n := counter];
    }

    /** issubclass(s, c): an ordinary class looks at the ancestors, an abstract one runs its check. */
    method IsSubclass(s: Cls, c: Cls) returns (r: Answer)
      requires GraphSound() && CachesSound() && c in mro
      modifies this`cache, this`negCache, this`negVersion
      ensures CachesSound()
      ensures r == if s !in mro then TypeError else if Sub(G(), s, c) then Yes else No
      ensures EdgesWithin(old(cache), cache)
      ensures forall x :: x in subs ==> old(negVersion)[x] <= negVersion[x]
      decreases ReachSet(EdgesOf(subs, registry), mro.Keys, c), 1
    {
      if c in subs {
        r := SubclassCheck(c, s);
      } else if s !in mro {
        r := TypeError;
      } else {
        BelowOrdinary(mro, EdgesOf(subs, registry), s, c);
        r := if c in mro[s] then Yes else No;
      }
    }

    /** The check of an abstract base class: whatever the caches hold, it answers as the graph does. */
    method SubclassCheck(c: Cls, s: Cls) returns (r: Answer)
      requires GraphSound() && CachesSound() && c in subs
      modifies this`cache, this`negCache, this`negVersion
      ensures CachesSound()
      ensures r == if s !in mro then TypeError else if Sub(G(), s, c) then Yes else No
      ensures EdgesWithin(old(cache), cache)
      ensures forall x :: x in subs ==> old(negVersion)[x] <= negVersion[x]
      ensures r == Yes ==> s in cache[c]
      ensures r == No ==> s in negCache[c] && negVersion[c] == counter
      decreases ReachSet(EdgesOf(subs, registry), mro.Keys, c), 0
    {
      if s !in mro {
        return TypeError;
      }
      var known := CacheLookup(c, s);
      if known.Some? {
        r := known.value;
      } else {
        r := Decide(c, s);
      }
    }

    /** What the caches say; a negative cache of an older version is thrown away. */
    method CacheLookup(c: Cls, s: Cls) returns (r: Option<Answer>)
      requires GraphSound() && CachesSound() && c in subs && s in mro
      modifies this`negCache, this`negVersion
      ensures CachesSound()
      ensures r.Some? ==> r.value == if Sub(G(), s, c) then Yes else No
      ensures r == Some(Yes) <==> s in cache[c]
      ensures r == Some(No) ==> s in negCache[c] && negVersion[c] == counter
      ensures r == None ==> negVersion[c] == counter
      ensures forall x :: x in subs ==> old(negVersion)[x] <= negVersion[x]
    {
      if s in cache[c] {
        YesHolds(G(), cache, c, s);
        return Some(Yes);
      }
      if negVersion[c] < counter {
        Invalidate(c);
      } else if s in negCache[c] {
        NoHolds(G(), negCache, negVersion, counter, c, s);
        return Some(No);
      }
      return None;
    }

    /** Search, and remember the outcome */
    method Decide(c: Cls, s: Cls) returns (r: Answer)
      requires GraphSound() && CachesSound() && c in subs && s in mro && negVersion[c] == counter
      modifies this`cache, this`negCache, this`negVersion
      ensures CachesSound()
      ensures r == if Sub(G(), s, c) then Yes else No
      ensures EdgesWithin(old(cache), cache)
      ensures forall x :: x in subs ==> old(negVersion)[x] <= negVersion[x]
      ensures r == Yes ==> s in cache[c]
      ensures r == No ==> s in negCache[c] && negVersion[c] == counter
      decreases ReachSet(EdgesOf(subs, registry), mro.Keys, c), 0, 2
    {
      var found := Search(c, s);
      if found {
        RememberYes(c, s);
        r := Yes;
      } else {
        RememberNo(c, s);
        r := No;
      }
    }

    /** Past the caches: the ancestors, then the registered classes, then the subclasses */
    method Search(c: Cls, s: Cls) returns (found: bool)
      requires GraphSound() && CachesSound() && c in subs && s in mro
      modifies this`cache, this`negCache, this`negVersion
      ensures CachesSound() && (found <==> Sub(G(), s, c))
      ensures EdgesWithin(old(cache), cache)
      ensures forall x :: x in subs ==> old(negVersion)[x] <= negVersion[x]
      decreases ReachSet(EdgesOf(subs, registry), mro.Keys, c), 0, 1
    {
      BelowStep(mro, EdgesOf(subs, registry), s, c);
      if c in mro[s] {
        return true;
      }
      found := AnyBelow(c, s, registry[c]);
      if !found {
        found := AnyBelow(c, s, subs[c]);
      }
    }

    /** The two loops of the check: is s a subclass of a member of todo? */
    method AnyBelow(c: Cls, s: Cls, todo: set<Cls>) returns (any: bool)
      requires GraphSound() && CachesSound() && c in subs && s in mro
      requires forall d :: d in todo ==> Edge(EdgesOf(subs, registry), c, d)
      modifies this`cache, this`negCache, this`negVersion
      ensures CachesSound()
      ensures any <==> exists d :: d in todo && Sub(G(), s, d)
      ensures EdgesWithin(old(cache), cache)
      ensures forall x :: x in subs ==> old(negVersion)[x] <= negVersion[x]
      decreases ReachSet(EdgesOf(subs, registry), mro.Keys, c), 0, 0
    {
      var rest := todo;
      while rest != {}
        invariant rest <= todo && CachesSound()
        invariant forall d :: d in todo && d !in rest ==> !Sub(G(), s, d)
        invariant EdgesWithin(old(cache), cache)
        invariant forall x :: x in subs ==> old(negVersion)[x] <= negVersion[x]
      {
        var d :| d in rest;
        EdgeKnown(G(), c, d);
        var r := IsSubclass(s, d);
        if r == Yes {
          return true;
        }
        rest := rest - {d};
      }
      return false;
    }

    method Invalidate(c: Cls)
      requires GraphSound() && CachesSound() && c in subs
      modifies this`negCache, this`negVersion
      ensures CachesSound() && negCache == old(negCache)[c := {}] && negVersion == old(negVersion)[c := counter]
    {
      Emptied(G(), cache, negCache, negVersion, counter, c);
      negCache, negVersion := negCache[c := {}], negVersion[c := counter];
    }

    method RememberNo(c: Cls, s: Cls)
      requires GraphSound() && CachesSound() && c in subs && s in mro && !Sub(G(), s, c)
      modifies this`negCache
      ensures CachesSound() && negCache == old(negCache)[c := old(negCache)[c] + {s}]
    {
      NoAdded(G(), negCache, negVersion, counter, c, s);
      negCache := negCache[c := negCache[c] + {s}];
    }

    method RememberYes(c: Cls, s: Cls)
      requires GraphSound() && CachesSound() && c in subs && Sub(G(), s, c)
      modifies this`cache
      ensures CachesSound() && cache == old(cache)[c := old(cache)[c] + {s}] && EdgesWithin(old(cache), cache)
    {
      YesAdded(G(), cache, c, s);
      cache := cache[c := cache[c] + {s}];
    }

    /** isinstance(x, c) for an object whose __class__ is claimed and whose type is actual */
    method InstanceCheck(c: Cls, claimed: Cls, actual: Cls) returns (r: Answer)
      requires GraphSound() && CachesSound() && c in subs && actual in mro
      modifies this`cache, this`negCache, this`negVersion
      ensures CachesSound() && EdgesWithin(old(cache), cache)
      ensures claimed !in mro ==> r == TypeError
      ensures claimed in mro ==> r == if Sub(G(), claimed, c) || Sub(G(), actual, c) then Yes else No
    {
      if claimed in cache[c] {
        YesHolds(G(), cache, c, claimed);
        return Yes;
      }
      if actual == claimed {
        if negVersion[c] == counter && claimed in negCache[c] {
          NoHolds(G(), negCache, negVersion, counter, c, claimed);
          return No;
        }
        r := SubclassCheck(c, claimed);
      } else {
        r := SubclassCheck(c, claimed);
        if r == No {
          r := SubclassCheck(c, actual);
        }
      }
    }

    /** c.register(s): nothing is ever taken away, and a registration that takes effect moves the counter. */
    method Register(c: Cls, s: Cls) returns (r: Registration)
      requires GraphSound() && CachesSound() && c in subs
      modifies this
      ensures GraphSound() && CachesSound() && mro == old(mro) && subs == old(subs)
      ensures r == if s !in mro then NotAClass else if old(Sub(G(), s, c)) then AlreadySubclass
                   else if old(Sub(G(), c, s)) then CycleRefused else Done
      ensures r == Done ==> G() == Registered(old(G()), c, s) && counter == old(counter) + 1
      ensures r == Done ==> forall x, y :: Sub(G(), x, y) <==>
                old(Sub(G(), x, y) || (Sub(G(), x, s) && Reach(EdgesOf(subs, registry), y, c)))
      ensures r != Done ==> G() == old(G()) && counter == old(counter)
      ensures r == Done || r == AlreadySubclass ==> Sub(G(), s, c)
      ensures forall x, y :: old(Sub(G(), x, y)) ==> Sub(G(), x, y)
      ensures EdgesWithin(old(cache), cache)
    {
      if s !in mro {
        return NotAClass;
      }
      var already := IsSubclass(s, c);
      if already == Yes {
        return AlreadySubclass;
      }
      var inverse := IsSubclass(c, s);
      if inverse == Yes {
        return CycleRefused;
      }
      AddRegistration(c, s);
      return Done;
    }

    /** Registering a class with itself does nothing: it is not an error, but it leaves the counter alone. */
    method RegisterItself(c: Cls) returns (r: Registration)
      requires GraphSound() && CachesSound() && c in subs
      modifies this
      ensures GraphSound() && CachesSound() && G() == old(G())
      ensures r == AlreadySubclass && counter == old(counter)
    {
      SubReflexive(G(), c);
      r := Register(c, c);
    }

    method AddRegistration(c: Cls, s: Cls)
      requires GraphSound() && CachesSound() && c in subs && s in mro && !Sub(G(), c, s)
      modifies this`registry, this`counter
      ensures GraphSound() && CachesSound()
      ensures G() == Registered(old(G()), c, s) && counter == old(counter) + 1
      ensures Sub(G(), s, c) && forall x, y :: old(Sub(G(), x, y)) ==> Sub(G(), x, y)
      ensures forall x, y :: Sub(G(), x, y) <==>
                old(Sub(G(), x, y) || (Sub(G(), x, s) && Reach(EdgesOf(subs, registry), y, c)))
    {
      ghost var h := Registered(G(), c, s);
      RegisteredCaches(G(), c, s, h, cache, negCache, negVersion, counter);
      registry := registry[c := registry[c] + {s}];
      counter := counter + 1;
      assert G() == h;
    }

    /** Clearing the caches of c changes no answer. */
    method CachesClear(c: Cls)
      requires GraphSound() && CachesSound() && c in subs
      modifies this`cache, this`negCache
      ensures CachesSound() && cache == old(cache)[c := {}] && negCache == old(negCache)[c := {}]
    {
      Emptied(G(), cache, negCache, negVersion, counter, c);
      cache, negCache := cache[c := {}], negCache[c := {}];
    }
  }
}
