/** The languages the combinators of src/NFA.java build: `star` accepts the
    Kleene star, `concatenate` the concatenation and `union` the union of the
    languages of its operands, for operands whose states are disjoint, as the
    counter makes them; the self-union the compiler performs first keeps the
    language unchanged. */
module CombinatorLaws {
  import opened Automaton
  import opened Paths
  import opened Languages
  import opened Combinators

  /** The language of `m`, as a value. */
  ghost function LanguageOf(m: NFA): seq<char> -> bool {
    u => AcceptsWord(m, u)
  }

  lemma InLanguage(a: NFA, u: seq<char>, f: nat)
    requires f in a.finals && Reaches(a, a.start, u, f)
    ensures LanguageOf(a)(u)
  {
  }

  // ---------------------------------------------------------------- star

  lemma StarRegions(c: NFA, a: NFA, n: nat)
    requires Valid(a) && StarShape(c, a, n)
    ensures EdgesWithin(a, c)
    ensures forall x, sig :: x in a.states ==> Succ(c, x, sig) <= a.states
  {
  }

  /** Out of the states of `a`, the star only adds epsilon edges from the
      finals of `a` back to its start. */
  lemma StarLeaves(c: NFA, a: NFA, n: nat)
    requires Valid(a) && StarShape(c, a, n)
    ensures LeavesVia(c, a, a.start)
  {
  }

  /** A word of `a` is read by the star from the old start to an old final. */
  lemma StarFirstWord(c: NFA, a: NFA, n: nat, u: seq<char>) returns (f1: nat)
    requires Valid(a) && StarShape(c, a, n) && LanguageOf(a)(u)
    ensures f1 in a.finals && Reaches(c, a.start, u, f1)
  {
    StarRegions(c, a, n);
    f1 :| f1 in a.finals && Reaches(a, a.start, u, f1);
    ReachesEmbed(a, c, a.start, u, f1);
  }

  /** Reading `u` to a final of `a`, taking the epsilon edge back to the
      start of `a` and then reading `v` reads `u + v`. */
  lemma StarBack(c: NFA, a: NFA, n: nat, p: nat, u: seq<char>, f1: nat, v: seq<char>, f: nat)
    requires Valid(a) && StarShape(c, a, n)
    requires f1 in a.finals && Reaches(c, p, u, f1) && Reaches(c, a.start, v, f)
    ensures Reaches(c, p, u + v, f)
  {
    var back := Edge(f1, Epsilon, a.start);
    assert IsEdge(c, back);
    ReachesEdge(c, p, u, back);
    assert u + Label(back) == u;
    ReachesTrans(c, p, u, a.start, v, f);
  }

  /** A walk of `star(a)` from the old start to an old final reads a word
      of the star: it is cut into words of `a` at every return to the start. */
  lemma {:induction false} StarWalk(c: NFA, a: NFA, es: seq<Edge>, f: nat)
    requires Valid(a) && LeavesVia(c, a, a.start)
    requires f in a.finals && IsPath(c, a.start, es, f)
    ensures StarOf(LanguageOf(a), Word(es))
    decreases |es|
  {
    var exited, u, fa, rest := FirstExit(c, a, a.start, a.start, es, f);
    if exited {
      StarWalk(c, a, rest, f);
      InLanguage(a, u, fa);
      StarCons(LanguageOf(a), u, Word(rest));
    } else {
      InLanguage(a, Word(es), f);
      StarCons(LanguageOf(a), Word(es), []);
      assert Word(es) + [] == Word(es);
    }
  }

  /** Every non-empty word of the star is read by `star(a)` from the old start
      to an old final. */
  lemma {:induction false} StarPlusWalk(c: NFA, a: NFA, n: nat, w: seq<char>) returns (f: nat)
    requires Valid(a) && StarShape(c, a, n)
    requires w != [] && StarOf(LanguageOf(a), w)
    ensures f in a.finals && Reaches(c, a.start, w, f)
    decreases |w|
  {
    var k := StarOfFirst(LanguageOf(a), w);
    var u, v := w[..k], w[k..];
    var f1 := StarFirstWord(c, a, n, u);
    if k == |w| {
      assert u == w;
      f := f1;
    } else {
      f := StarPlusWalk(c, a, n, v);
      StarBack(c, a, n, a.start, u, f1, v, f);
      assert u + v == w;
    }
  }

  lemma StarShapeLanguage(c: NFA, a: NFA, n: nat, w: seq<char>)
    requires Valid(a) && StarShape(c, a, n)
    ensures AcceptsWord(c, w) <==> StarOf(LanguageOf(a), w)
  {
    StarRegions(c, a, n);
    EmptyPath(c, n);
    if AcceptsWord(c, w) && w != [] {
      var f :| f in c.finals && Reaches(c, n, w, f);
      var e := ReachesFirst(c, n, w, f);
      var v :| w == Label(e) + v && Reaches(c, e.dst, v, f);
      assert e.sig == Epsilon && e.dst == a.start;
      ReachesStaysIn(c, a.states, a.start, v, f);
      var es :| IsPath(c, a.start, es, f) && Word(es) == w;
      StarLeaves(c, a, n);
      StarWalk(c, a, es, f);
    }
    if StarOf(LanguageOf(a), w) && w != [] {
      var f := StarPlusWalk(c, a, n, w);
      EdgeReaches(c, Edge(n, Epsilon, a.start), w, f);
    }
  }

  /** `star` accepts exactly the Kleene star of the language of `a`; in
      particular it accepts the empty word. */
  lemma StarLanguage(a: NFA, n: nat, w: seq<char>)
    requires Valid(a) && Below(a, n)
    ensures AcceptsWord(Star(a, n).0, w) <==> StarOf(LanguageOf(a), w)
    ensures AcceptsWord(Star(a, n).0, [])
  {
    StarShapeLanguage(Star(a, n).0, a, n, w);
    StarShapeLanguage(Star(a, n).0, a, n, []);
  }

  // --------------------------------------------------------------- union

  lemma UnionRegions(c: NFA, a: NFA, b: NFA, n: nat)
    requires Valid(a) && Valid(b) && Below(a, n) && Below(b, n) && a.states !! b.states
    requires UnionShape(c, a, b, n)
    ensures EdgesWithin(a, c) && EdgesWithin(b, c)
    ensures AgreesOn(c, a, a.states) && AgreesOn(c, b, b.states)
  {
  }

  lemma UnionShapeLanguage(c: NFA, a: NFA, b: NFA, n: nat, w: seq<char>)
    requires Valid(a) && Valid(b) && Below(a, n) && Below(b, n) && a.states !! b.states
    requires UnionShape(c, a, b, n)
    ensures AcceptsWord(c, w) <==> AcceptsWord(a, w) || AcceptsWord(b, w)
  {
    UnionRegions(c, a, b, n);
    if AcceptsWord(c, w) {
      var f :| f in c.finals && Reaches(c, n, w, f);
      var e := ReachesFirst(c, n, w, f);
      var v :| w == Label(e) + v && Reaches(c, e.dst, v, f);
      assert e.sig == Epsilon && w == v;
      if e.dst == a.start {
        ReachesRestrict(c, a, a.states, a.start, w, f);
        assert f in a.finals;
      } else {
        ReachesRestrict(c, b, b.states, b.start, w, f);
        assert f in b.finals;
      }
    }
    if AcceptsWord(a, w) {
      var f :| f in a.finals && Reaches(a, a.start, w, f);
      ReachesEmbed(a, c, a.start, w, f);
      EdgeReaches(c, Edge(n, Epsilon, a.start), w, f);
    }
    if AcceptsWord(b, w) {
      var f :| f in b.finals && Reaches(b, b.start, w, f);
      ReachesEmbed(b, c, b.start, w, f);
      EdgeReaches(c, Edge(n, Epsilon, b.start), w, f);
    }
  }

  /** `union` of machines with disjoint states accepts exactly the words
      either operand accepts. */
  lemma UnionLanguage(a: NFA, b: NFA, n: nat, w: seq<char>)
    requires Valid(a) && Valid(b) && Below(a, n) && Below(b, n) && a.states !! b.states
    ensures AcceptsWord(Union(a, Some(b), n).0, w) <==> AcceptsWord(a, w) || AcceptsWord(b, w)
  {
    UnionShapeLanguage(Union(a, Some(b), n).0, a, b, n, w);
  }

  /** `union(null)` changes nothing. */
  lemma UnionNullLanguage(a: NFA, n: nat, w: seq<char>)
    requires Valid(a) && Below(a, n)
    ensures Union(a, None, n) == (a, n)
    ensures AcceptsWord(Union(a, None, n).0, w) <==> AcceptsWord(a, w)
  {
  }

  // ---------------------------------------------------------- self-union

  /** A walk of the self-union from its new start loops on it a few times,
      then enters the old machine at its start. */
  lemma {:induction false} UnionSelfWalk(c: NFA, a: NFA, n: nat, es: seq<Edge>, f: nat)
    requires Valid(a) && SelfUnionShape(c, a, n)
    requires f in a.states && IsPath(c, n, es, f)
    ensures Reaches(a, a.start, Word(es), f)
    decreases |es|
  {
    assert AgreesOn(c, a, a.states) by {
      forall q, sig | q in a.states ensures Succ(c, q, sig) == Succ(a, q, sig) && Succ(a, q, sig) <= a.states {
        ValidSucc(a, q, sig);
      }
    }
    if es != [] {
      var e := es[0];
      assert Word(es) == Label(e) + Word(es[1..]);
      assert e.sig == Epsilon;
      if e.dst == n {
        UnionSelfWalk(c, a, n, es[1..], f);
      } else {
        assert e.dst == a.start;
        PathRestrict(c, a, a.states, a.start, es[1..], f);
      }
    }
  }

  lemma SelfUnionShapeLanguage(c: NFA, a: NFA, n: nat, w: seq<char>)
    requires Valid(a) && SelfUnionShape(c, a, n)
    ensures AcceptsWord(c, w) <==> AcceptsWord(a, w)
  {
    if AcceptsWord(c, w) {
      var f :| f in c.finals && Reaches(c, n, w, f);
      var es :| IsPath(c, n, es, f) && Word(es) == w;
      UnionSelfWalk(c, a, n, es, f);
    }
    if AcceptsWord(a, w) {
      var f :| f in a.finals && Reaches(a, a.start, w, f);
      assert EdgesWithin(a, c) by {
        forall q, sig ensures Succ(a, q, sig) <= Succ(c, q, sig) {
          ValidSucc(a, q, sig);
        }
      }
      ReachesEmbed(a, c, a.start, w, f);
      EdgeReaches(c, Edge(n, Epsilon, a.start), w, f);
    }
  }

  /** The first fold step `mainNfa.union(mainNfa)` adds a state and an
      epsilon self-loop but accepts exactly what the machine accepted. */
  lemma UnionSelfLanguage(a: NFA, n: nat, w: seq<char>)
    requires Valid(a) && Below(a, n)
    ensures AcceptsWord(UnionSelf(a, n).0, w) <==> AcceptsWord(a, w)
  {
    SelfUnionShapeLanguage(UnionSelf(a, n).0, a, n, w);
  }

  // --------------------------------------------------------- concatenate

  lemma ConcatRegions(c: NFA, a: NFA, b: NFA)
    requires Valid(a) && Valid(b) && a.states !! b.states && ConcatShape(c, a, b)
    ensures EdgesWithin(a, c) && EdgesWithin(b, c)
    ensures AgreesOn(c, b, b.states)
  {
  }

  /** Out of the states of `a`, the concatenation only adds epsilon edges
      from the finals of `a` to the start of `b`. */
  lemma ConcatLeaves(c: NFA, a: NFA, b: NFA)
    requires Valid(a) && Valid(b) && a.states !! b.states && ConcatShape(c, a, b)
    ensures LeavesVia(c, a, b.start)
  {
  }

  /** A walk of the concatenation from the start of `a` to a state of `b`
      reads a word of `a` to a final of `a`, crosses the joining epsilon
      edge, and reads a word of `b` from its start. */
  lemma ConcatWalk(c: NFA, a: NFA, b: NFA, es: seq<Edge>, f: nat) returns (u: seq<char>, fa: nat, v: seq<char>)
    requires Valid(a) && Valid(b) && a.states !! b.states && ConcatShape(c, a, b)
    requires f in b.states && IsPath(c, a.start, es, f)
    ensures Word(es) == u + v && fa in a.finals && Reaches(a, a.start, u, fa) && Reaches(b, b.start, v, f)
  {
    ConcatLeaves(c, a, b);
    ConcatRegions(c, a, b);
    var exited, u', fa', rest := FirstExit(c, a, b.start, a.start, es, f);
    assert exited;
    PathRestrict(c, b, b.states, b.start, rest, f);
    PathReaches(b, b.start, rest, f);
    u, fa, v := u', fa', Word(rest);
  }

  lemma ConcatShapeAccepted(c: NFA, a: NFA, b: NFA, w: seq<char>)
    requires Valid(a) && Valid(b) && a.states !! b.states && ConcatShape(c, a, b)
    requires AcceptsWord(c, w)
    ensures ConcatOf(LanguageOf(a), LanguageOf(b), w)
  {
    var f :| f in c.finals && Reaches(c, a.start, w, f);
    var es :| IsPath(c, a.start, es, f) && Word(es) == w;
    var u, fa, v := ConcatWalk(c, a, b, es, f);
    InLanguage(a, u, fa);
    InLanguage(b, v, f);
    assert w[..|u|] == u && w[|u|..] == v;
  }

  /** A word of `a` followed by a word of `b` is read by the concatenation
      across the joining edge. */
  lemma ConcatBridge(c: NFA, a: NFA, b: NFA, u: seq<char>, fa: nat, v: seq<char>, fb: nat)
    requires Valid(a) && Valid(b) && a.states !! b.states && ConcatShape(c, a, b)
    requires fa in a.finals && Reaches(a, a.start, u, fa) && Reaches(b, b.start, v, fb)
    ensures Reaches(c, a.start, u + v, fb)
  {
    ConcatRegions(c, a, b);
    ReachesEmbed(a, c, a.start, u, fa);
    ReachesEmbed(b, c, b.start, v, fb);
    var bridge := Edge(fa, Epsilon, b.start);
    assert IsEdge(c, bridge);
    ReachesEdge(c, a.start, u, bridge);
    assert u + Label(bridge) == u;
    ReachesTrans(c, a.start, u, b.start, v, fb);
  }

  lemma ConcatShapeReads(c: NFA, a: NFA, b: NFA, w: seq<char>)
    requires Valid(a) && Valid(b) && a.states !! b.states && ConcatShape(c, a, b)
    requires ConcatOf(LanguageOf(a), LanguageOf(b), w)
    ensures AcceptsWord(c, w)
  {
    var k := ConcatOfSplit(LanguageOf(a), LanguageOf(b), w);
    var u, v := w[..k], w[k..];
    assert AcceptsWord(a, u) && AcceptsWord(b, v);
    var fa :| fa in a.finals && Reaches(a, a.start, u, fa);
    var fb :| fb in b.finals && Reaches(b, b.start, v, fb);
    ConcatBridge(c, a, b, u, fa, v, fb);
    assert u + v == w;
  }

  lemma ConcatShapeLanguage(c: NFA, a: NFA, b: NFA, w: seq<char>)
    requires Valid(a) && Valid(b) && a.states !! b.states && ConcatShape(c, a, b)
    ensures AcceptsWord(c, w) <==> ConcatOf(LanguageOf(a), LanguageOf(b), w)
  {
    if AcceptsWord(c, w) {
      ConcatShapeAccepted(c, a, b, w);
    }
    if ConcatOf(LanguageOf(a), LanguageOf(b), w) {
      ConcatShapeReads(c, a, b, w);
    }
  }

  /** `concatenate` of machines with disjoint states accepts exactly the
      words that split into a word of `a` followed by a word of `b`. */
  lemma ConcatenateLanguage(a: NFA, b: NFA, w: seq<char>)
    requires Valid(a) && Valid(b) && a.states !! b.states
    ensures AcceptsWord(Concatenate(a, Some(b)), w) <==> ConcatOf(LanguageOf(a), LanguageOf(b), w)
  {
    ConcatShapeLanguage(Concatenate(a, Some(b)), a, b, w);
  }

  /** `concatenate(null)` changes nothing. */
  lemma ConcatenateNullLanguage(a: NFA, w: seq<char>)
    requires Valid(a)
    ensures Concatenate(a, None) == a
    ensures AcceptsWord(Concatenate(a, None), w) <==> AcceptsWord(a, w)
  {
  }
}
