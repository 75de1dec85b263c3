/** What an automaton accepts, stated over walks through its edges rather
    than over the simulator: a word is read along a walk by dropping the
    epsilon labels. These definitions are the reference the simulator and the
    combinators are proved against. */
module Paths {
  import opened Automaton

  datatype Edge = Edge(src: nat, sig: char, dst: nat)

  predicate IsEdge(m: NFA, e: Edge) {
    e.dst in Succ(m, e.src, e.sig)
  }

  /** `es` is a walk along edges of `m` from `p` to `q`. */
  ghost predicate IsPath(m: NFA, p: nat, es: seq<Edge>, q: nat)
    decreases |es|
  {
    if es == [] then p == q
    else es[0].src == p && IsEdge(m, es[0]) && IsPath(m, es[0].dst, es[1..], q)
  }

  /** The symbol an edge consumes: nothing for an epsilon edge. */
  function Label(e: Edge): seq<char> {
    if e.sig == Epsilon then [] else [e.sig]
  }

  /** The word a walk reads. */
  function Word(es: seq<Edge>): seq<char>
    decreases |es|
  {
    if es == [] then [] else Label(es[0]) + Word(es[1..])
  }

  ghost predicate Reaches(m: NFA, p: nat, w: seq<char>, q: nat) {
    exists es :: IsPath(m, p, es, q) && Word(es) == w
  }

  /** Some state of `S` reaches `q` reading `w`. */
  ghost predicate ReachedFrom(m: NFA, S: set<nat>, w: seq<char>, q: nat) {
    exists p :: p in S && Reaches(m, p, w, q)
  }

  /** A start state of `S` that reaches `q` reading `w`. */
  lemma ReachedFromPick(m: NFA, S: set<nat>, w: seq<char>, q: nat) returns (p: nat)
    requires ReachedFrom(m, S, w, q)
    ensures p in S && Reaches(m, p, w, q)
  {
    p :| p in S && Reaches(m, p, w, q);
  }

  /** The language of `m` over symbol words. */
  ghost predicate AcceptsWord(m: NFA, w: seq<char>) {
    exists f :: f in m.finals && Reaches(m, m.start, w, f)
  }

  /** The language of `m` over input strings, read through `translateInput`. */
  ghost predicate Accepts(m: NFA, input: string) {
    AcceptsWord(m, Translate(input))
  }

  /** Every edge of `a` is an edge of `c`. */
  ghost predicate EdgesWithin(a: NFA, c: NFA) {
    forall q, sig :: Succ(a, q, sig) <= Succ(c, q, sig)
  }

  /** On the states `X`, `c` has exactly the edges of `a`, and they stay in `X`. */
  ghost predicate AgreesOn(c: NFA, a: NFA, X: set<nat>) {
    forall q, sig :: q in X ==> Succ(c, q, sig) == Succ(a, q, sig) && Succ(a, q, sig) <= X
  }

  lemma EmptyPath(m: NFA, p: nat)
    ensures Reaches(m, p, [], p)
  {
    assert IsPath(m, p, [], p) && Word([]) == [];
  }

  lemma SingleEdge(m: NFA, e: Edge)
    requires IsEdge(m, e)
    ensures IsPath(m, e.src, [e], e.dst) && Word([e]) == Label(e)
    ensures Reaches(m, e.src, Label(e), e.dst)
  {
  }

  /** A walk witnesses the word it reads. */
  lemma PathReaches(m: NFA, p: nat, es: seq<Edge>, q: nat)
    requires IsPath(m, p, es, q)
    ensures Reaches(m, p, Word(es), q)
  {
  }

  /** A non-empty walk is its first edge followed by the rest of the walk. */
  lemma PathUncons(m: NFA, p: nat, es: seq<Edge>, q: nat) returns (e: Edge, rest: seq<Edge>)
    requires IsPath(m, p, es, q) && es != []
    ensures es == [e] + rest && e.src == p && IsEdge(m, e) && IsPath(m, e.dst, rest, q)
    ensures Word(es) == Label(e) + Word(rest) && |rest| < |es|
  {
    e, rest := es[0], es[1..];
    assert es == [e] + rest;
  }

  /** The word of a joined walk is the join of the words. */
  lemma {:induction false} WordAppend(es1: seq<Edge>, es2: seq<Edge>)
    ensures Word(es1 + es2) == Word(es1) + Word(es2)
    decreases |es1|
  {
    if es1 == [] {
      assert es1 + es2 == es2;
    } else {
      var rest, all := es1[1..], es1 + es2;
      assert all[0] == es1[0] && all[1..] == rest + es2;
      WordAppend(rest, es2);
      var l, x, y := Label(es1[0]), Word(rest), Word(es2);
      assert Word(all) == l + (x + y);
      assert Word(es1) == l + x;
      assert l + (x + y) == (l + x) + y;
    }
  }

  lemma {:induction false} PathAppend(m: NFA, p: nat, es1: seq<Edge>, q: nat, es2: seq<Edge>, r: nat)
    requires IsPath(m, p, es1, q) && IsPath(m, q, es2, r)
    ensures IsPath(m, p, es1 + es2, r)
    ensures Word(es1 + es2) == Word(es1) + Word(es2)
    decreases |es1|
  {
    WordAppend(es1, es2);
    if es1 == [] {
      assert es1 + es2 == es2;
    } else {
      var rest := es1[1..];
      PathAppend(m, es1[0].dst, rest, q, es2, r);
      var all := es1 + es2;
      assert all[0] == es1[0] && all[1..] == rest + es2;
    }
  }

  /** Reading `u` to `q` and then `v` from `q` reads `u + v`. */
  lemma ReachesTrans(m: NFA, p: nat, u: seq<char>, q: nat, v: seq<char>, r: nat)
    requires Reaches(m, p, u, q) && Reaches(m, q, v, r)
    ensures Reaches(m, p, u + v, r)
  {
    var es1 :| IsPath(m, p, es1, q) && Word(es1) == u;
    var es2 :| IsPath(m, q, es2, r) && Word(es2) == v;
    PathAppend(m, p, es1, q, es2, r);
  }

  lemma ReachesEdge(m: NFA, p: nat, u: seq<char>, e: Edge)
    requires Reaches(m, p, u, e.src) && IsEdge(m, e)
    ensures Reaches(m, p, u + Label(e), e.dst)
  {
    SingleEdge(m, e);
    ReachesTrans(m, p, u, e.src, Label(e), e.dst);
  }

  lemma EdgeReaches(m: NFA, e: Edge, v: seq<char>, r: nat)
    requires IsEdge(m, e) && Reaches(m, e.dst, v, r)
    ensures Reaches(m, e.src, Label(e) + v, r)
  {
    SingleEdge(m, e);
    ReachesTrans(m, e.src, Label(e), e.dst, v, r);
  }

  /** A walk reading `u + v` passes a point where exactly `u` has been read. */
  lemma {:induction false} PathSplitWord(m: NFA, p: nat, es: seq<Edge>, r: nat, u: seq<char>, v: seq<char>)
    returns (q: nat)
    requires IsPath(m, p, es, r) && Word(es) == u + v
    ensures Reaches(m, p, u, q) && Reaches(m, q, v, r)
    decreases |es|
  {
    if u == [] {
      q := p;
      EmptyPath(m, p);
      assert u + v == v;
    } else {
      assert es != [];
      var e := es[0];
      if Label(e) == [] {
        assert Word(es[1..]) == u + v;
        q := PathSplitWord(m, e.dst, es[1..], r, u, v);
        EdgeReaches(m, e, u, q);
      } else {
        assert Word(es) == Label(e) + Word(es[1..]);
        assert Label(e) == [e.sig];
        assert (u + v)[0] == u[0];
        assert e.sig == u[0];
        assert Word(es[1..]) == u[1..] + v by {
          assert (u + v)[1..] == u[1..] + v;
        }
        q := PathSplitWord(m, e.dst, es[1..], r, u[1..], v);
        EdgeReaches(m, e, u[1..], q);
        assert Label(e) + u[1..] == u;
      }
    }
  }

  lemma ReachesSplit(m: NFA, p: nat, u: seq<char>, v: seq<char>, r: nat) returns (q: nat)
    requires Reaches(m, p, u + v, r)
    ensures Reaches(m, p, u, q) && Reaches(m, q, v, r)
  {
    var es :| IsPath(m, p, es, r) && Word(es) == u + v;
    q := PathSplitWord(m, p, es, r, u, v);
  }

  /** A walk reading the single symbol `c` is epsilon edges, one `c` edge,
      then epsilon edges. */
  lemma {:induction false} PathSingleSymbol(m: NFA, p: nat, es: seq<Edge>, r: nat, c: char) returns (e: Edge)
    requires c != Epsilon
    requires IsPath(m, p, es, r) && Word(es) == [c]
    ensures IsEdge(m, e) && e.sig == c
    ensures Reaches(m, p, [], e.src) && Reaches(m, e.dst, [], r)
    decreases |es|
  {
    assert es != [];
    var e0 := es[0];
    if Label(e0) == [] {
      e := PathSingleSymbol(m, e0.dst, es[1..], r, c);
      EdgeReaches(m, e0, [], e.src);
    } else {
      assert Label(e0) == [c] && Word(es[1..]) == [];
      e := e0;
      EmptyPath(m, p);
      assert Reaches(m, e0.dst, [], r) by {
        assert IsPath(m, e0.dst, es[1..], r);
      }
    }
  }

  /** Reading `w + [c]` ends with a `c` edge followed by epsilon edges. */
  lemma ReachesLast(m: NFA, p: nat, w: seq<char>, c: char, r: nat) returns (e: Edge)
    requires c != Epsilon
    requires Reaches(m, p, w + [c], r)
    ensures IsEdge(m, e) && e.sig == c
    ensures Reaches(m, p, w, e.src) && Reaches(m, e.dst, [], r)
  {
    var q := ReachesSplit(m, p, w, [c], r);
    var es :| IsPath(m, q, es, r) && Word(es) == [c];
    e := PathSingleSymbol(m, q, es, r, c);
    ReachesTrans(m, p, w, q, [], e.src);
    assert w + [] == w;
  }

  lemma {:induction false} PathEmbed(a: NFA, c: NFA, p: nat, es: seq<Edge>, q: nat)
    requires EdgesWithin(a, c) && IsPath(a, p, es, q)
    ensures IsPath(c, p, es, q)
    decreases |es|
  {
    if es != [] {
      PathEmbed(a, c, es[0].dst, es[1..], q);
    }
  }

  /** A word `a` reads between two states, `c` reads too when it has all of
      `a`'s edges. */
  lemma ReachesEmbed(a: NFA, c: NFA, p: nat, w: seq<char>, q: nat)
    requires EdgesWithin(a, c) && Reaches(a, p, w, q)
    ensures Reaches(c, p, w, q)
  {
    var es :| IsPath(a, p, es, q) && Word(es) == w;
    PathEmbed(a, c, p, es, q);
  }

  /** A walk of `c` that starts in a region where `c` only has `a`'s edges
      stays in the region and is a walk of `a`. */
  lemma {:induction false} PathRestrict(c: NFA, a: NFA, X: set<nat>, p: nat, es: seq<Edge>, q: nat)
    requires AgreesOn(c, a, X) && p in X && IsPath(c, p, es, q)
    ensures IsPath(a, p, es, q) && q in X
    decreases |es|
  {
    if es != [] {
      assert es[0].dst in Succ(a, p, es[0].sig);
      PathRestrict(c, a, X, es[0].dst, es[1..], q);
    }
  }

  lemma ReachesRestrict(c: NFA, a: NFA, X: set<nat>, p: nat, w: seq<char>, q: nat)
    requires AgreesOn(c, a, X) && p in X && Reaches(c, p, w, q)
    ensures Reaches(a, p, w, q) && q in X
  {
    var es :| IsPath(c, p, es, q) && Word(es) == w;
    PathRestrict(c, a, X, p, es, q);
  }

  /** A walk that moves or reads something starts with an edge out of its
      first state. */
  lemma ReachesFirst(m: NFA, p: nat, w: seq<char>, r: nat) returns (e: Edge)
    requires Reaches(m, p, w, r) && (p != r || w != [])
    ensures e.src == p && IsEdge(m, e)
    ensures exists v :: w == Label(e) + v && Reaches(m, e.dst, v, r)
  {
    var es :| IsPath(m, p, es, r) && Word(es) == w;
    e := es[0];
    assert IsPath(m, e.dst, es[1..], r) && w == Label(e) + Word(es[1..]);
  }

  /** A walk that reads nothing and ends outside the start state takes at
      least one epsilon edge. */
  lemma ReachesNothing(m: NFA, p: nat, r: nat) returns (e: Edge)
    requires Reaches(m, p, [], r) && p != r
    ensures e.src == p && e.sig == Epsilon && IsEdge(m, e) && Reaches(m, e.dst, [], r)
  {
    e := ReachesFirst(m, p, [], r);
    var v :| [] == Label(e) + v && Reaches(m, e.dst, v, r);
  }

  /** No walk leaves a region that no edge of `m` leaves. */
  lemma {:induction false} PathStaysIn(m: NFA, X: set<nat>, p: nat, es: seq<Edge>, q: nat)
    requires forall x, sig :: x in X ==> Succ(m, x, sig) <= X
    requires p in X && IsPath(m, p, es, q)
    ensures q in X
    decreases |es|
  {
    if es != [] {
      PathStaysIn(m, X, es[0].dst, es[1..], q);
    }
  }

  lemma ReachesStaysIn(m: NFA, X: set<nat>, p: nat, w: seq<char>, q: nat)
    requires forall x, sig :: x in X ==> Succ(m, x, sig) <= X
    requires p in X && Reaches(m, p, w, q)
    ensures q in X
  {
    var es :| IsPath(m, p, es, q) && Word(es) == w;
    PathStaysIn(m, X, p, es, q);
  }

  /** Out of the states of `a`, `c` only has `a`'s own edges, which stay
      inside, and epsilon edges from finals of `a` to `t`. */
  ghost predicate LeavesVia(c: NFA, a: NFA, t: nat) {
    forall e: Edge :: e.src in a.states && IsEdge(c, e) ==>
      (IsEdge(a, e) && e.dst in a.states) || (e.sig == Epsilon && e.src in a.finals && e.dst == t)
  }

  /** A walk of `c` from a state of `a` either is a walk of `a`, or reads a
      word of `a` to a final of `a`, leaves to `t` and reads the rest from
      there along a shorter walk. */
  lemma {:induction false} FirstExit(c: NFA, a: NFA, t: nat, p: nat, es: seq<Edge>, f: nat)
    returns (exited: bool, u: seq<char>, fa: nat, rest: seq<Edge>)
    requires LeavesVia(c, a, t) && p in a.states && IsPath(c, p, es, f)
    ensures !exited ==> Reaches(a, p, Word(es), f) && f in a.states
    ensures exited ==> fa in a.finals && Reaches(a, p, u, fa)
    ensures exited ==> IsPath(c, t, rest, f) && |rest| < |es| && Word(es) == u + Word(rest)
    decreases |es|
  {
    if es == [] {
      EmptyPath(a, p);
      exited, u, fa, rest := false, [], p, [];
    } else {
      var e, tail := PathUncons(c, p, es, f);
      if IsEdge(a, e) && e.dst in a.states {
        var ex, u', fa', rest' := FirstExit(c, a, t, e.dst, tail, f);
        exited, fa, rest := ex, fa', rest';
        if ex {
          EdgeReaches(a, e, u', fa');
          u := Label(e) + u';
          assert Label(e) + (u' + Word(rest')) == u + Word(rest');
        } else {
          EdgeReaches(a, e, Word(tail), f);
          u := [];
        }
      } else {
        assert e.sig == Epsilon && p in a.finals && e.dst == t;
        EmptyPath(a, p);
        exited, u, fa, rest := true, [], p, tail;
        assert Label(e) == [];
      }
    }
  }
}
