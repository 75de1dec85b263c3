/** The structural combinators of src/NFA.java: `star`, `union` and
    `concatenate`, written as the same sequence of guarded mutator calls the
    source makes, each returning the new machine and the advanced counter. */
module Combinators {
  import opened Automaton

  /** `c` is `a` starred with the fresh state `n`: `n` is the new start and
      is final, its only edge is an epsilon edge to the old start, and every
      old final state also has an epsilon edge back to the old start. */
  ghost predicate StarShape(c: NFA, a: NFA, n: nat) {
    && c.states == a.states + {n} && n !in a.states
    && c.start == n
    && c.finals == a.finals + {n}
    && Succ(c, n, Epsilon) == {a.start}
    && (forall sig :: sig != Epsilon ==> Succ(c, n, sig) == {})
    && (forall q, sig :: q != n ==>
          Succ(c, q, sig) == Succ(a, q, sig) + (if sig == Epsilon && q in a.finals then {a.start} else {}))
  }

  /** `c` is the union of `a` and `b` through the fresh start `n`. */
  ghost predicate UnionShape(c: NFA, a: NFA, b: NFA, n: nat) {
    && c.states == a.states + b.states + {n}
    && c.start == n
    && c.finals == a.finals + b.finals
    && Succ(c, n, Epsilon) == {a.start, b.start}
    && (forall sig :: sig != Epsilon ==> Succ(c, n, sig) == {})
    && (forall q, sig :: q != n ==> Succ(c, q, sig) == Succ(a, q, sig) + Succ(b, q, sig))
  }

  /** `c` is `a` unioned with itself through the fresh start `n`, which
      carries an epsilon loop besides its edge to the old start. */
  ghost predicate SelfUnionShape(c: NFA, a: NFA, n: nat) {
    && c.states == a.states + {n} && n !in a.states
    && c.start == n
    && c.finals == a.finals
    && Succ(c, n, Epsilon) == {a.start, n}
    && (forall sig :: sig != Epsilon ==> Succ(c, n, sig) == {})
    && (forall q, sig :: q != n ==> Succ(c, q, sig) == Succ(a, q, sig))
  }

  /** `c` is `a` followed by `b`: every final of `a` has an epsilon edge to
      the start of `b`, and only the finals of `b` are final. */
  ghost predicate ConcatShape(c: NFA, a: NFA, b: NFA) {
    && c.states == a.states + b.states
    && c.start == a.start
    && c.finals == b.finals
    && (forall q, sig :: Succ(c, q, sig) ==
          Succ(a, q, sig) + Succ(b, q, sig) + (if sig == Epsilon && q in a.finals then {b.start} else {}))
  }

  /** `addAllStates(other.states)` then `addAllTransitions(other.transitions)`:
      the receiver gains `other`'s states and, all of them now being members,
      every edge of `other`. */
  function Absorb(m: NFA, o: NFA): (r: NFA)
    requires Valid(m) && Valid(o)
    ensures Valid(r)
    ensures r.states == m.states + o.states && r.start == m.start && r.finals == m.finals
    ensures forall q, sig :: Succ(r, q, sig) == Succ(m, q, sig) + Succ(o, q, sig)
  {
    var m1 := AddAllStates(m, o.states);
    var m2 := AddAllTransitions(m1, o.transitions);
    assert forall q, sig :: Succ(m2, q, sig) == Succ(m, q, sig) + Succ(o, q, sig) by {
      forall q, sig ensures Succ(m2, q, sig) == Succ(m, q, sig) + Succ(o, q, sig) {
        ValidSucc(m, q, sig);
        ValidSucc(o, q, sig);
      }
    }
    m2
  }

  /** `star()`: a fresh state becomes the start and a final state, with an
      epsilon edge to the old start; every old final state gets an epsilon
      edge back to the old start and stays final. */
  function Star(m: NFA, next: nat): (r: (NFA, nat))
    requires Valid(m) && Below(m, next)
    ensures Valid(r.0) && Below(r.0, r.1) && r.1 == next + 1
    ensures StarShape(r.0, m, next)
  {
    var (m1, newStart) := AddState(m, next);
    var semiStart := m1.start;
    var (m2, _) := AddTransition(m1, newStart, Epsilon, semiStart);
    var m3 := AddEdgesTo(m2, m2.finals, Epsilon, semiStart);
    var (m4, _) := SetStartState(m3, newStart);
    var (m5, _) := AddFinalState(m4, m4.start);
    assert forall sig :: Succ(m, next, sig) == {} by {
      forall sig ensures Succ(m, next, sig) == {} { ValidSucc(m, next, sig); }
    }
    assert Succ(m2, next, Epsilon) == {m.start};
    assert forall q, sig :: q != next || sig != Epsilon ==> Succ(m2, q, sig) == Succ(m, q, sig);
    assert m5.transitions == m3.transitions && m2.finals == m.finals;
    assert Succ(m5, next, Epsilon) == {m.start} by {
      assert Succ(m3, next, Epsilon) == Succ(m2, next, Epsilon);
    }
    forall sig | sig != Epsilon ensures Succ(m5, next, sig) == {} {
      assert Succ(m3, next, sig) == Succ(m2, next, sig);
    }
    forall q, sig | q != next
      ensures Succ(m5, q, sig) == Succ(m, q, sig) + (if sig == Epsilon && q in m.finals then {m.start} else {})
    {
      assert Succ(m5, q, sig) == Succ(m3, q, sig);
      assert Succ(m2, q, sig) == Succ(m, q, sig);
    }
    (m5, next + 1)
  }

  /** `union(other)`: absorbs `other`'s states and edges, puts a fresh start
      in front with epsilon edges to both old starts, and keeps the finals of
      both. A missing `other` (Java's null) changes nothing. */
  function Union(m: NFA, other: Option<NFA>, next: nat): (r: (NFA, nat))
    requires Valid(m) && Below(m, next)
    requires other.Some? ==> Valid(other.value) && Below(other.value, next)
    ensures other.None? ==> r == (m, next)
    ensures Valid(r.0) && Below(r.0, r.1)
    ensures other.Some? ==> r.1 == next + 1 && UnionShape(r.0, m, other.value, next)
  {
    match other
    case None => (m, next)
    case Some(o) =>
      var m2 := Absorb(m, o);
      var (m3, newStart) := AddState(m2, next);
      var (m4, _) := AddTransition(m3, newStart, Epsilon, m3.start);
      var (m5, _) := SetStartState(m4, newStart);
      var (m6, _) := AddTransition(m5, m5.start, Epsilon, o.start);
      var m7 := AddFinals(m6, o.finals);
      assert next !in m2.states;
      assert forall sig :: Succ(m2, next, sig) == {} by {
        forall sig ensures Succ(m2, next, sig) == {} {
          ValidSucc(m, next, sig);
          ValidSucc(o, next, sig);
        }
      }
      assert m7.transitions == m6.transitions && m5.transitions == m4.transitions;
      assert Succ(m4, next, Epsilon) == {m.start};
      assert Succ(m6, next, Epsilon) == {m.start, o.start};
      forall sig | sig != Epsilon ensures Succ(m7, next, sig) == {} {
        assert Succ(m7, next, sig) == Succ(m2, next, sig);
      }
      forall q, sig | q != next ensures Succ(m7, q, sig) == Succ(m, q, sig) + Succ(o, q, sig) {
        assert Succ(m7, q, sig) == Succ(m2, q, sig);
      }
      (m7, next + 1)
  }

  /** The first step of the union fold, `mainNfa.union(mainNfa)`: `other` is
      the receiver itself, so absorbing its states, edges and finals changes
      nothing, and `other.getStartState()` is read after `setStartState`, so
      the second epsilon edge is a loop on the fresh start. */
  function UnionSelf(m: NFA, next: nat): (r: (NFA, nat))
    requires Valid(m) && Below(m, next)
    ensures Valid(r.0) && Below(r.0, r.1) && r.1 == next + 1
    ensures SelfUnionShape(r.0, m, next)
  {
    var m1 := AddAllStates(m, m.states);
    var m2 := AddAllTransitions(m1, m1.transitions);
    var (m3, newStart) := AddState(m2, next);
    var (m4, _) := AddTransition(m3, newStart, Epsilon, m3.start);
    var (m5, _) := SetStartState(m4, newStart);
    var (m6, _) := AddTransition(m5, m5.start, Epsilon, m5.start);
    var m7 := AddFinals(m6, m6.finals);
    assert forall q, sig :: Succ(m2, q, sig) == Succ(m, q, sig) by {
      forall q, sig ensures Succ(m2, q, sig) == Succ(m, q, sig) {
        ValidSucc(m, q, sig);
      }
    }
    assert forall sig :: Succ(m, next, sig) == {} by {
      forall sig ensures Succ(m, next, sig) == {} { ValidSucc(m, next, sig); }
    }
    assert Succ(m4, next, Epsilon) == {m.start};
    assert forall q, sig :: q != next || sig != Epsilon ==> Succ(m4, q, sig) == Succ(m, q, sig);
    assert Succ(m6, next, Epsilon) == {m.start, next};
    assert forall q, sig :: q != next || sig != Epsilon ==> Succ(m6, q, sig) == Succ(m, q, sig);
    assert m7.transitions == m6.transitions;
    (m7, next + 1)
  }

  /** `concatenate(other)`: absorbs `other`'s states and edges, joins every
      final state of the receiver to `other`'s start by an epsilon edge, and
      makes `other`'s finals the only finals. No state is allocated. A
      missing `other` (Java's null) changes nothing. */
  function Concatenate(m: NFA, other: Option<NFA>): (r: NFA)
    requires Valid(m)
    requires other.Some? ==> Valid(other.value)
    ensures other.None? ==> r == m
    ensures Valid(r)
    ensures other.Some? ==> ConcatShape(r, m, other.value)
  {
    match other
    case None => m
    case Some(o) =>
      var m2 := Absorb(m, o);
      var m3 := AddEdgesTo(m2, m2.finals, Epsilon, o.start);
      var m4 := ClearFinalStates(m3);
      var m5 := AddFinals(m4, o.finals);
      assert m5.transitions == m3.transitions && m2.finals == m.finals;
      m5
  }
}
