/** The building blocks `buildNFA` (src/Main.java:49-149) glues together,
    each with what it keeps (a valid machine over the labels 'a', 'd' and
    epsilon, on states the counter issued in a known range) and what its
    machine accepts.

    Java's `null` result is `Null`; a run that would throw (a null receiver,
    an empty split array) is `Crash`. */
module Steps {
  import opened Automaton
  import opened Paths
  import opened Languages
  import opened Combinators
  import opened CombinatorLaws

  datatype Build = Null | Built(m: NFA, next: nat) | Crash

  /** The results of compiling the segments of a union, in order; a null
      segment is `None`. */
  datatype Builds = SegCrash | Segs(ms: seq<Option<NFA>>, next: nat)

  /** Only the letter class 'a', the digit class 'd' and epsilon label edges. */
  ghost predicate Labels(m: NFA) {
    forall q, sig :: sig != 'a' && sig != 'd' && sig != Epsilon ==> Succ(m, q, sig) == {}
  }

  /** `m` reads the single symbol `c`: an edge labelled `c` from the start to
      the only final state, and no other edge. */
  ghost predicate LitShape(m: NFA, c: char) {
    exists f ::
      && f != m.start && m.states == {m.start, f} && m.finals == {f}
      && Succ(m, m.start, c) == {f}
      && forall q, sig :: q != m.start || sig != c ==> Succ(m, q, sig) == {}
  }

  /** src/Main.java:103-106: a new machine, one more state, the `c` edge
      between them, and that state made final. */
  function Literal(c: char, next: nat): (r: (NFA, nat))
    ensures Valid(r.0) && StatesIn(r.0, next, r.1) && r.1 == next + 2
    ensures LitShape(r.0, c)
  {
    var (m0, n0) := NewNFA(next);
    var (m1, f) := AddState(m0, n0);
    var (m2, _) := AddTransition(m1, m1.start, c, f);
    var (m3, _) := AddFinalState(m2, f);
    assert m3.start == next && f == next + 1;
    assert forall q, sig :: q != next || sig != c ==> Succ(m3, q, sig) == {};
    (m3, f + 1)
  }

  // ------------------------------------------------------------ alphabets

  lemma LiteralLabels(m: NFA, c: char)
    requires LitShape(m, c) && (c == 'a' || c == 'd')
    ensures Labels(m)
  {
  }

  lemma StarLabels(c: NFA, a: NFA, n: nat)
    requires StarShape(c, a, n) && Labels(a)
    ensures Labels(c)
  {
  }

  lemma UnionLabels(c: NFA, a: NFA, b: NFA, n: nat)
    requires UnionShape(c, a, b, n) && Labels(a) && Labels(b)
    ensures Labels(c)
  {
  }

  lemma SelfUnionLabels(c: NFA, a: NFA, n: nat)
    requires SelfUnionShape(c, a, n) && Labels(a)
    ensures Labels(c)
  {
  }

  lemma ConcatLabels(c: NFA, a: NFA, b: NFA)
    requires ConcatShape(c, a, b) && Labels(a) && Labels(b)
    ensures Labels(c)
  {
  }

  // ---------------------------------------------------------- the compiler

  /** What every successful compilation delivers: a valid machine over the
      three labels whose states the counter issued between `lo` and `hi`. */
  ghost predicate Good(m: NFA, lo: nat, hi: nat) {
    Valid(m) && Labels(m) && lo <= hi && StatesIn(m, lo, hi)
  }

  /** Starring a good machine with the next fresh state keeps it good. */
  lemma StarGood(c: NFA, a: NFA, lo: nat, n: nat)
    requires Valid(c) && StarShape(c, a, n) && Good(a, lo, n)
    ensures Good(c, lo, n + 1)
  {
  }

  /** The literal machine is good over the two states it allocates. */
  lemma LiteralGood(c: char, next: nat)
    requires c == 'a' || c == 'd'
    ensures Good(Literal(c, next).0, next, next + 2)
  {
  }

  /** `m.concatenate(buildNFA(rest))` where `rest` was compiled from counter
      `n` on: a null rest leaves `m` as it is, a crash propagates. */
  function ThenRest(m: NFA, lo: nat, n: nat, rest: Build): (r: Build)
    requires Good(m, lo, n)
    requires rest.Built? ==> Good(rest.m, n, rest.next)
    ensures !r.Null? && (r.Crash? <==> rest.Crash?)
    ensures r.Built? ==> Good(r.m, lo, r.next)
    ensures rest.Null? ==> r == Built(m, n)
    ensures rest.Built? ==> r.Built? && r.next == rest.next && ConcatShape(r.m, m, rest.m)
  {
    match rest
    case Crash => Crash
    case Null => Built(m, n)
    case Built(o, n2) =>
      var c := Concatenate(m, Some(o));
      ConcatLabels(c, m, o);
      Built(c, n2)
  }

  /** `r` is the star of `m` (on the fresh state `n`) followed by `rest`:
      what the language lemmas need to know about `StarThen` without
      looking inside `star` and `concatenate`. */
  ghost predicate StarredThen(r: Build, m: NFA, lo: nat, n: nat, rest: Build) {
    exists st ::
      && StarShape(st, m, n) && Good(st, lo, n + 1)
      && (rest.Null? ==> r == Built(st, n + 1))
      && (rest.Built? ==> r.Built? && ConcatShape(r.m, st, rest.m))
  }

  /** `m.star()` with the fresh state `n`, then `concatenate(rest)`. */
  function StarThen(m: NFA, lo: nat, n: nat, rest: Build): (r: Build)
    requires Good(m, lo, n)
    requires rest.Built? ==> Good(rest.m, n + 1, rest.next)
    ensures !r.Null? && (r.Crash? <==> rest.Crash?)
    ensures r.Built? ==> Good(r.m, lo, r.next)
    ensures StarredThen(r, m, lo, n, rest)
  {
    StarGood(Star(m, n).0, m, lo, n);
    ThenRest(Star(m, n).0, lo, n + 1, rest)
  }

  /** Every machine of `ms` is good between `lo` and `hi`. */
  ghost predicate Fits(ms: seq<Option<NFA>>, lo: nat, hi: nat) {
    forall i :: 0 <= i < |ms| && ms[i].Some? ==> Good(ms[i].value, lo, hi)
  }

  /** The machines of `ms` have pairwise disjoint states. */
  ghost predicate Apart(ms: seq<Option<NFA>>) {
    forall i, j :: 0 <= i < j < |ms| && ms[i].Some? && ms[j].Some? ==>
      ms[i].value.states !! ms[j].value.states
  }

  /** No machine of `ms` shares a state with `S`. */
  ghost predicate ApartFrom(ms: seq<Option<NFA>>, S: set<nat>) {
    forall i :: 0 <= i < |ms| && ms[i].Some? ==> ms[i].value.states !! S
  }

  /** After the first round `mainNfa.union(mainNfa)` the rest of the fold
      may run: the later machines are good, apart from each other and from
      the self-union. */
  lemma FoldReady(ms: seq<Option<NFA>>, lo: nat, n: nat)
    requires |ms| > 0 && ms[0].Some? && Fits(ms, lo, n) && Apart(ms)
    ensures Good(UnionSelf(ms[0].value, n).0, lo, n + 1)
    ensures Fits(ms[1..], lo, n + 1) && Apart(ms[1..])
    ensures ApartFrom(ms[1..], UnionSelf(ms[0].value, n).0.states)
  {
    var first := ms[0].value;
    assert Good(first, lo, n);
    var (m1, _) := UnionSelf(first, n);
    SelfUnionLabels(m1, first, n);
    forall i | 0 <= i < |ms[1..]| && ms[1..][i].Some? ensures Good(ms[1..][i].value, lo, n + 1) {
      assert ms[1..][i] == ms[i + 1];
    }
    forall i, j | 0 <= i < j < |ms[1..]| && ms[1..][i].Some? && ms[1..][j].Some?
      ensures ms[1..][i].value.states !! ms[1..][j].value.states
    {
      assert ms[1..][i] == ms[i + 1] && ms[1..][j] == ms[j + 1];
    }
    forall i | 0 <= i < |ms[1..]| && ms[1..][i].Some? ensures ms[1..][i].value.states !! m1.states {
      assert ms[1..][i] == ms[i + 1];
      assert ms[i + 1].value.states !! first.states;
      assert n !in ms[i + 1].value.states;
    }
  }

  /** One round of the union fold keeps the fold's preconditions. */
  lemma FoldStep(m: NFA, lo: nat, next: nat, rest: seq<Option<NFA>>)
    requires Good(m, lo, next) && Fits(rest, lo, next) && Apart(rest) && ApartFrom(rest, m.states)
    requires rest != []
    ensures Good(Union(m, rest[0], next).0, lo, Union(m, rest[0], next).1)
    ensures Fits(rest[1..], lo, Union(m, rest[0], next).1) && Apart(rest[1..])
    ensures ApartFrom(rest[1..], Union(m, rest[0], next).0.states)
  {
    var (m1, n1) := Union(m, rest[0], next);
    if rest[0].Some? {
      UnionLabels(m1, m, rest[0].value, next);
    }
    forall i | 0 <= i < |rest[1..]| && rest[1..][i].Some? ensures Good(rest[1..][i].value, lo, n1) {
      assert rest[1..][i] == rest[i + 1];
    }
    forall i, j | 0 <= i < j < |rest[1..]| && rest[1..][i].Some? && rest[1..][j].Some?
      ensures rest[1..][i].value.states !! rest[1..][j].value.states
    {
      assert rest[1..][i] == rest[i + 1] && rest[1..][j] == rest[j + 1];
    }
    forall i | 0 <= i < |rest[1..]| && rest[1..][i].Some? ensures rest[1..][i].value.states !! m1.states {
      assert rest[1..][i] == rest[i + 1];
      assert rest[i + 1].value.states !! m.states;
      assert rest[0].Some? ==> rest[i + 1].value.states !! rest[0].value.states;
      assert next !in rest[i + 1].value.states;
    }
  }

  /** The loop `for (j ...) mainNfa.union(builtNfas[j])` after its first
      round; a null entry is skipped by `union`'s own check. */
  function FoldUnion(m: NFA, lo: nat, next: nat, rest: seq<Option<NFA>>): (r: (NFA, nat))
    requires Good(m, lo, next) && Fits(rest, lo, next) && Apart(rest) && ApartFrom(rest, m.states)
    ensures Good(r.0, lo, r.1) && next <= r.1
    decreases |rest|
  {
    if rest == [] then (m, next)
    else
      var (m1, n1) := Union(m, rest[0], next);
      FoldStep(m, lo, next, rest);
      FoldUnion(m1, lo, n1, rest[1..])
  }

  /** A machine issued after the ones before it keeps the segment machines
      good and pairwise apart. */
  lemma SnocSegs(ms: seq<Option<NFA>>, last: Option<NFA>, lo: nat, n0: nat, n: nat)
    requires lo <= n0 <= n && Fits(ms, lo, n0) && Apart(ms)
    requires last.Some? ==> Good(last.value, n0, n)
    ensures Fits(ms + [last], lo, n) && Apart(ms + [last])
  {
  }

  // ---------------------------------------------------------- languages

  /** The two-state literal machine accepts exactly the word `[c]`. */
  lemma LiteralLang(c: char, next: nat)
    requires c != Epsilon
    ensures forall u :: AcceptsWord(Literal(c, next).0, u) <==> u == [c]
  {
    var m := Literal(c, next).0;
    var f :| && f != m.start && m.states == {m.start, f} && m.finals == {f}
             && Succ(m, m.start, c) == {f}
             && forall q, sig :: q != m.start || sig != c ==> Succ(m, q, sig) == {};
    forall u ensures AcceptsWord(m, u) <==> u == [c] {
      if AcceptsWord(m, u) {
        var g :| g in m.finals && Reaches(m, m.start, u, g);
        assert g == f;
        var e := ReachesFirst(m, m.start, u, f);
        assert e.sig == c && e.dst == f;
        var v :| u == Label(e) + v && Reaches(m, f, v, f);
        if v != [] {
          var e2 := ReachesFirst(m, f, v, f);
          assert false;
        }
        assert u == [c] + [];
      }
      if u == [c] {
        SingleEdge(m, Edge(m.start, c, f));
      }
    }
  }

  /** Some machine of `ms` accepts `w`. */
  ghost predicate SomeAccepts(ms: seq<Option<NFA>>, w: seq<char>) {
    exists j :: 0 <= j < |ms| && ms[j].Some? && AcceptsWord(ms[j].value, w)
  }

  lemma SomeAcceptsCons(ms: seq<Option<NFA>>, w: seq<char>)
    requires ms != []
    ensures SomeAccepts(ms, w) <==> (ms[0].Some? && AcceptsWord(ms[0].value, w)) || SomeAccepts(ms[1..], w)
  {
  }

  /** The union fold accepts what its first machine or any later non-null
      machine accepts. */
  lemma {:induction false} FoldLang(m: NFA, lo: nat, next: nat, rest: seq<Option<NFA>>, w: seq<char>)
    requires Good(m, lo, next) && Fits(rest, lo, next) && Apart(rest) && ApartFrom(rest, m.states)
    ensures AcceptsWord(FoldUnion(m, lo, next, rest).0, w) <==> AcceptsWord(m, w) || SomeAccepts(rest, w)
    decreases |rest|
  {
    if rest != [] {
      var (m1, n1) := Union(m, rest[0], next);
      FoldStep(m, lo, next, rest);
      FoldLang(m1, lo, n1, rest[1..], w);
      if rest[0].Some? {
        assert Good(rest[0].value, lo, next);
        UnionLanguage(m, rest[0].value, next, w);
      }
      SomeAcceptsCons(rest, w);
    }
  }

  /** `m` accepts exactly the words of `L`. */
  ghost predicate Denotes(m: NFA, L: seq<char> -> bool) {
    forall u :: AcceptsWord(m, u) == L(u)
  }

  /** `m.concatenate(rest)` accepts `L` then `R` when `m` accepts `L` and
      the rest's machine accepts `R`, and `L` alone when the rest is null. */
  lemma ThenRestLang(m: NFA, lo: nat, n: nat, L: seq<char> -> bool, rest: Build, R: seq<char> -> bool, r: Build)
    requires Good(m, lo, n) && Denotes(m, L)
    requires !rest.Crash? && (rest.Built? ==> Good(rest.m, n, rest.next) && Denotes(rest.m, R))
    requires rest.Null? ==> r == Built(m, n)
    requires rest.Built? ==> r.Built? && ConcatShape(r.m, m, rest.m)
    ensures r.Built? && forall w :: AcceptsWord(r.m, w) == (if rest.Null? then L(w) else ConcatOf(L, R, w))
  {
    if rest.Built? {
      forall w ensures AcceptsWord(r.m, w) == ConcatOf(L, R, w) {
        ConcatShapeLanguage(r.m, m, rest.m, w);
        ConcatOfSame(LanguageOf(m), LanguageOf(rest.m), L, R, w);
      }
    }
  }

  /** `m.star()` accepts `L*` when `m` accepts `L`. */
  lemma StarLang(st: NFA, m: NFA, n: nat, L: seq<char> -> bool)
    requires Valid(m) && StarShape(st, m, n) && Denotes(m, L)
    ensures Denotes(st, Kleene(L))
  {
    forall w ensures AcceptsWord(st, w) == Kleene(L)(w) {
      StarShapeLanguage(st, m, n, w);
      StarOfSame(LanguageOf(m), L, w);
    }
  }
}
