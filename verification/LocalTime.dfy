/**
 Local time and the fold.

 Times are whole seconds: an instant u, and a wall time t that counts the seconds of the broken-down
 fields from the epoch.  The platform shows u as u + off(u).  What is proved about an instant only
 needs the offset to change at most once near it, by at most a day.
 */
module LocalTime {
  const MAX_FOLD_SECONDS := 24 * 3600

  /** The wall clock of the platform */
  function Local(off: int -> int, u: int): int {
    u + off(u)
  }

  /** One change of offset */
  datatype Transition = Transition(at: int, before: int, after: int) {
    function Offset(u: int): int {
      if u < at then before else after
    }

    function Shown(u: int): int {
      u + Offset(u)
    }

    predicate Valid() {
      -MAX_FOLD_SECONDS <= after - before <= MAX_FOLD_SECONDS
    }

    /** A bound on both offsets */
    function Reach(): nat {
      var b := if before < 0 then -before else before;
      var a := if after < 0 then -after else after;
      if a < b then b else a
    }
  }

  /** From low to high the offset is that of z. */
  ghost predicate Governs(off: int -> int, z: Transition, low: int, high: int) {
    forall v :: low <= v <= high ==> off(v) == z.Offset(v)
  }

  /** The same wall time was already shown before u. */
  ghost predicate IsRepeat(z: Transition, u: int) {
    exists v :: v < u && z.Shown(v) == z.Shown(u)
  }

  /** The instant PEP 495 assigns to a wall time */
  function Resolve(z: Transition, t: int, fold: bool): int {
    var early, late := t - z.before, t - z.after;
    var earlyFits, lateFits := early < z.at, late >= z.at;
    if earlyFits && lateFits then if fold then late else early
    else if earlyFits then early
    else if lateFits then late
    else if fold then late else early
  }

  // ----- what Resolve means

  /** A wall time that is shown once resolves to its instant, whatever the fold. */
  lemma ResolveUnique(z: Transition, t: int, u: int, fold: bool)
    requires z.Valid() && z.Shown(u) == t
    requires forall v :: z.Shown(v) == t ==> v == u
    ensures Resolve(z, t, fold) == u
  {
    assert z.Shown(t - z.before) == t || t - z.before >= z.at;
    assert z.Shown(t - z.after) == t || t - z.after < z.at;
  }

  /** An ambiguous wall time has exactly two instants: the fold picks the earlier or the later. */
  lemma ResolveAmbiguous(z: Transition, t: int, u: int, v: int)
    requires z.Valid() && u < v && z.Shown(u) == t == z.Shown(v)
    ensures Resolve(z, t, false) == u && Resolve(z, t, true) == v
    ensures forall w :: z.Shown(w) == t ==> w == u || w == v
  {
  }

  /** In a gap there is no instant: the fold picks the offset before or after the transition. */
  lemma ResolveGap(z: Transition, t: int)
    requires z.Valid()
    ensures (forall v :: z.Shown(v) != t) <==> z.at + z.before <= t < z.at + z.after
    ensures (forall v :: z.Shown(v) != t) ==>
      Resolve(z, t, false) == t - z.before && Resolve(z, t, true) == t - z.after
  {
    assert z.Shown(t - z.before) == t || t - z.before >= z.at;
    assert z.Shown(t - z.after) == t || t - z.after < z.at;
  }

  /** Breaking an instant down and resolving the result gives the instant back. */
  lemma RoundTrip(z: Transition, u: int)
    requires z.Valid()
    ensures Resolve(z, z.Shown(u), IsRepeat(z, u)) == u
  {
    var t := z.Shown(u);
    if u < z.at {
      var late := t - z.after;
      assert late >= z.at ==> z.Shown(late) == t;
    } else {
      var early := t - z.before;
      assert early < z.at ==> z.Shown(early) == t;
    }
  }

  // ----- the two conversions

  /** The local branch of _fromtimestamp: the wall time of u and its fold */
  method FromTimestamp(off: int -> int, u: int, ghost z: Transition) returns (t: int, fold: bool)
    requires z.Valid() && Governs(off, z, u - MAX_FOLD_SECONDS, u)
    ensures t == z.Shown(u)
    ensures fold <==> IsRepeat(z, u)
  {
    t := Local(off, u);
    fold := false;
    var probe1 := Local(off, u - MAX_FOLD_SECONDS);
    var trans := t - probe1 - MAX_FOLD_SECONDS;
    if trans < 0 {
      var probe2 := Local(off, u + trans);
      if probe2 == t {
        fold := true;
        assert z.Shown(u + trans) == z.Shown(u);
      }
    }
    if u >= z.at {
      assert z.Shown(t - z.before) == t || t - z.before >= z.at;
    }
  }

  /** _mktime: the instant of a wall time and a fold */
  method Mktime(off: int -> int, t: int, fold: bool, ghost z: Transition) returns (u: int)
    requires z.Valid()
    requires Governs(off, z, t - z.Reach() - MAX_FOLD_SECONDS, t + z.Reach() + MAX_FOLD_SECONDS)
    ensures u == Resolve(z, t, fold)
  {
    var a := Local(off, t) - t;
    var u1 := t - a;
    var t1 := Local(off, u1);
    var b;
    if t1 == t {
      var u2 := u1 + if fold then MAX_FOLD_SECONDS else -MAX_FOLD_SECONDS;
      b := Local(off, u2) - u2;
      if a == b {
        return u1;
      }
    } else {
      b := t1 - u1;
      assert a != b;
    }
    var u2 := t - b;
    var t2 := Local(off, u2);
    if t2 == t {
      return u2;
    }
    if t1 == t {
      return u1;
    }
    return if fold then if u1 < u2 then u1 else u2 else if u1 < u2 then u2 else u1;
  }

  /** For every instant near which the offset changes at most once, _mktime undoes _fromtimestamp. */
  method ThereAndBack(off: int -> int, u: int, ghost z: Transition) returns (v: int)
    requires z.Valid()
    requires Governs(off, z, u - 2 * z.Reach() - MAX_FOLD_SECONDS, u + 2 * z.Reach() + MAX_FOLD_SECONDS)
    ensures v == u
  {
    var t, fold := FromTimestamp(off, u, z);
    v := Mktime(off, t, fold, z);
    RoundTrip(z, u);
  }

  /** A wall time outside every gap is broken down again to itself, an ambiguous one with its fold. */
  method BackAndThere(off: int -> int, t: int, fold: bool, ghost z: Transition) returns (t': int, fold': bool)
    requires z.Valid()
    requires Governs(off, z, t - 2 * z.Reach() - MAX_FOLD_SECONDS, t + 2 * z.Reach() + MAX_FOLD_SECONDS)
    requires !(z.at + z.before <= t < z.at + z.after)
    ensures t' == t
    ensures fold' <==> fold && exists v, w :: v < w && z.Shown(v) == t == z.Shown(w)
  {
    var u := Mktime(off, t, fold, z);
    t', fold' := FromTimestamp(off, u, z);
    assert z.Shown(u) == t;
    if exists v, w :: v < w && z.Shown(v) == t == z.Shown(w) {
      ghost var v, w :| v < w && z.Shown(v) == t == z.Shown(w);
      ResolveAmbiguous(z, t, v, w);
      assert z.Shown(v) == z.Shown(w);
    }
  }
}
