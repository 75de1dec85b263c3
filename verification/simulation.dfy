/** The simulator of src/NFA.java: the one-symbol step `transition`, the
    fixed-point `epsilonTransition` and the subset simulation
    `acceptsString`, each proved against the walk semantics of `Paths`. */
module Simulation {
  import opened Automaton
  import opened Paths

  /** The reference for one step: every state one `sig` edge leads to from
      some state of `S`. */
  function Post(m: NFA, S: set<nat>, sig: char): set<nat> {
    set p, q | p in S && q in Succ(m, p, sig) :: q
  }

  /** A state of `S` with a `sig` edge to `q`, for `q` in the step. */
  lemma PostPick(m: NFA, S: set<nat>, sig: char, q: nat) returns (p: nat)
    requires q in Post(m, S, sig)
    ensures p in S && q in Succ(m, p, sig)
  {
    p :| p in S && q in Succ(m, p, sig);
  }

  /** Every destination stored anywhere in the transition map. */
  function Targets(m: NFA): set<nat> {
    set k, q | k in m.transitions && q in m.transitions[k] :: q
  }

  /** No epsilon edge leaves `S`. */
  predicate Closed(m: NFA, S: set<nat>) {
    forall q :: q in S ==> Succ(m, q, Epsilon) <= S
  }

  lemma PostInTargets(m: NFA, S: set<nat>, sig: char)
    ensures Post(m, S, sig) <= Targets(m)
  {
  }

  lemma ProperSubsetSmaller(A: set<nat>, B: set<nat>)
    requires A < B
    ensures |A| < |B|
  {
    var x :| x in B - A;
    assert B == A + (B - A);
    assert A * (B - A) == {};
  }

  lemma GrowthShrinksRemainder(U: set<nat>, cur: set<nat>, add: set<nat>)
    requires add <= U
    ensures |cur + add| != |cur| ==> |U - (cur + add)| < |U - cur|
  {
    if add <= cur {
      assert cur + add == cur;
    } else {
      var x :| x in add && x !in cur;
      assert x in U - cur && x !in U - (cur + add);
      ProperSubsetSmaller(U - (cur + add), U - cur);
    }
  }

  /** `transition`: the union of the `sig`-successor sets of the current
      states, gathered one state at a time; a state without a `sig` entry
      contributes nothing. */
  method Transition(m: NFA, cur: set<nat>, sig: char) returns (next: set<nat>)
    ensures next == Post(m, cur, sig)
    ensures forall q :: q in next <==> exists p :: p in cur && q in Succ(m, p, sig)
  {
    next := {};
    var todo := cur;
    while todo != {}
      invariant todo <= cur
      invariant next == Post(m, cur - todo, sig)
      decreases todo
    {
      var p :| p in todo;
      if HasTransition(m, p, sig) {
        next := next + GetTransitions(m, p, sig).value;
      }
      assert cur - (todo - {p}) == (cur - todo) + {p};
      todo := todo - {p};
    }
    assert cur - todo == cur;
  }

  /** `epsilonTransition`: adds the epsilon-successors of the whole current
      set until a round adds nothing. The result contains the input and no
      epsilon edge leaves it. */
  function EpsilonTransition(m: NFA, cur: set<nat>): (r: set<nat>)
    ensures cur <= r
    ensures Closed(m, r)
    decreases |Targets(m) - cur|
  {
    var toAdd := Post(m, cur, Epsilon);
    if |cur + toAdd| == |cur| then
      assert toAdd <= cur by {
        if !(toAdd <= cur) {
          ProperSubsetSmaller(cur, cur + toAdd);
        }
      }
      cur
    else
      PostInTargets(m, cur, Epsilon);
      GrowthShrinksRemainder(Targets(m), cur, toAdd);
      EpsilonTransition(m, cur + toAdd)
  }

  /** The closure is the least closed superset of its input. */
  lemma {:induction false} EpsilonTransitionLeast(m: NFA, S: set<nat>, T: set<nat>)
    requires S <= T && Closed(m, T)
    ensures EpsilonTransition(m, S) <= T
    decreases |Targets(m) - S|
  {
    var toAdd := Post(m, S, Epsilon);
    if |S + toAdd| != |S| {
      assert toAdd <= T;
      PostInTargets(m, S, Epsilon);
      GrowthShrinksRemainder(Targets(m), S, toAdd);
      EpsilonTransitionLeast(m, S + toAdd, T);
    }
  }

  /** Closing a set no epsilon edge leaves returns it unchanged; in particular
      closing twice is closing once. */
  lemma EpsilonTransitionIdempotent(m: NFA, S: set<nat>)
    ensures Closed(m, S) ==> EpsilonTransition(m, S) == S
    ensures EpsilonTransition(m, EpsilonTransition(m, S)) == EpsilonTransition(m, S)
  {
  }

  lemma {:induction false} ClosedKeepsEpsilonWalks(m: NFA, T: set<nat>, p: nat, es: seq<Edge>, q: nat)
    requires Closed(m, T) && p in T && IsPath(m, p, es, q) && Word(es) == []
    ensures q in T
    decreases |es|
  {
    if es != [] {
      assert Label(es[0]) + Word(es[1..]) == [];
      ClosedKeepsEpsilonWalks(m, T, es[0].dst, es[1..], q);
    }
  }

  /** The states some state of `S` reaches along epsilon edges. */
  ghost function EpsReachable(m: NFA, S: set<nat>): set<nat> {
    set q | q in S + Targets(m) && ReachedFrom(m, S, [], q)
  }

  lemma EpsReachableClosed(m: NFA, S: set<nat>)
    ensures S <= EpsReachable(m, S)
    ensures Closed(m, EpsReachable(m, S))
  {
    var T := EpsReachable(m, S);
    forall p | p in S ensures p in T {
      EmptyPath(m, p);
    }
    forall q | q in T ensures Succ(m, q, Epsilon) <= T {
      forall q' | q' in Succ(m, q, Epsilon) ensures q' in T {
        EpsReachableStep(m, S, q, q');
      }
    }
  }

  lemma EpsReachableStep(m: NFA, S: set<nat>, q: nat, q': nat)
    requires ReachedFrom(m, S, [], q) && q' in Succ(m, q, Epsilon)
    ensures q' in EpsReachable(m, S)
  {
    var p := ReachedFromPick(m, S, [], q);
    var e := Edge(q, Epsilon, q');
    ReachesEdge(m, p, [], e);
    assert [] + Label(e) == [];
    assert q' in m.transitions[QSig(q, Epsilon)];
  }

  /** The closure holds exactly the states some input state reaches along
      epsilon edges. */
  lemma EpsilonTransitionReach(m: NFA, S: set<nat>)
    ensures forall q :: q in EpsilonTransition(m, S) <==> ReachedFrom(m, S, [], q)
  {
    var C := EpsilonTransition(m, S);
    EpsReachableClosed(m, S);
    EpsilonTransitionLeast(m, S, EpsReachable(m, S));
    forall q | ReachedFrom(m, S, [], q) ensures q in C {
      var p :| p in S && Reaches(m, p, [], q);
      var es :| IsPath(m, p, es, q) && Word(es) == [];
      ClosedKeepsEpsilonWalks(m, C, p, es, q);
    }
  }

  /** One step of the simulation: if `cur` is what `S` reaches reading `w`,
      the closure of its `c`-successors is what `S` reaches reading `w + [c]`. */
  lemma StepReach(m: NFA, S: set<nat>, w: seq<char>, cur: set<nat>, c: char)
    requires c != Epsilon
    requires forall q :: q in cur <==> ReachedFrom(m, S, w, q)
    ensures forall q :: q in EpsilonTransition(m, Post(m, cur, c)) <==> ReachedFrom(m, S, w + [c], q)
  {
    var P := Post(m, cur, c);
    EpsilonTransitionReach(m, P);
    forall q | ReachedFrom(m, P, [], q) ensures ReachedFrom(m, S, w + [c], q) {
      StepForward(m, S, w, cur, c, q);
    }
    forall q | ReachedFrom(m, S, w + [c], q) ensures ReachedFrom(m, P, [], q) {
      StepBackward(m, S, w, cur, c, q);
    }
  }

  lemma StepForward(m: NFA, S: set<nat>, w: seq<char>, cur: set<nat>, c: char, q: nat)
    requires c != Epsilon
    requires forall q :: q in cur ==> ReachedFrom(m, S, w, q)
    requires ReachedFrom(m, Post(m, cur, c), [], q)
    ensures ReachedFrom(m, S, w + [c], q)
  {
    var y := ReachedFromPick(m, Post(m, cur, c), [], q);
    var x := PostPick(m, cur, c, y);
    var s := ReachedFromPick(m, S, w, x);
    ReachesEdge(m, s, w, Edge(x, c, y));
    ReachesTrans(m, s, w + [c], y, [], q);
    assert w + [c] + [] == w + [c];
  }

  lemma StepBackward(m: NFA, S: set<nat>, w: seq<char>, cur: set<nat>, c: char, q: nat)
    requires c != Epsilon
    requires forall q :: ReachedFrom(m, S, w, q) ==> q in cur
    requires ReachedFrom(m, S, w + [c], q)
    ensures ReachedFrom(m, Post(m, cur, c), [], q)
  {
    var s := ReachedFromPick(m, S, w + [c], q);
    var e := ReachesLast(m, s, w, c, q);
    assert ReachedFrom(m, S, w, e.src);
    assert e.dst in Post(m, cur, c);
  }

  /** Once nothing is reached, no continuation reaches anything. */
  lemma DeadSetStaysDead(m: NFA, S: set<nat>, u: seq<char>, v: seq<char>, q: nat)
    requires forall p :: !ReachedFrom(m, S, u, p)
    ensures !ReachedFrom(m, S, u + v, q)
  {
    if ReachedFrom(m, S, u + v, q) {
      var s :| s in S && Reaches(m, s, u + v, q);
      var p := ReachesSplit(m, s, u, v, q);
      assert ReachedFrom(m, S, u, p);
    }
  }

  /** The states the start reaches reading `input[..i]`. */
  ghost predicate Tracks(m: NFA, input: string, i: nat, cur: set<nat>) {
    i <= |input| && forall q :: q in cur <==> ReachedFrom(m, {m.start}, Translate(input[..i]), q)
  }

  /** Before any input, the closure of the start is tracked exactly. */
  lemma TracksStart(m: NFA, input: string)
    ensures Tracks(m, input, 0, EpsilonTransition(m, {m.start}))
  {
    EpsilonTransitionReach(m, {m.start});
    assert Translate(input[..0]) == [];
  }

  /** The tracked set after a prefix is determined by the prefix. */
  lemma TracksUnique(m: NFA, input: string, i: nat, A: set<nat>, B: set<nat>)
    requires Tracks(m, input, i, A) && Tracks(m, input, i, B)
    ensures A == B
  {
  }

  /** One round of the simulation loop keeps the tracked set exact. */
  lemma TracksStep(m: NFA, input: string, i: nat, cur: set<nat>)
    requires Tracks(m, input, i, cur) && i < |input|
    ensures Tracks(m, input, i + 1, EpsilonTransition(m, Post(m, cur, TranslateInput(input[i]))))
  {
    StepReach(m, {m.start}, Translate(input[..i]), cur, TranslateInput(input[i]));
    TranslatePrefix(input, i);
  }

  /** An empty tracked set after a prefix means the input is rejected. */
  lemma TracksDead(m: NFA, input: string, i: nat)
    requires Tracks(m, input, i, {})
    ensures !Accepts(m, input)
  {
    forall f | f in m.finals ensures !Reaches(m, m.start, Translate(input), f) {
      DeadSetStaysDead(m, {m.start}, Translate(input[..i]), Translate(input[i..]), f);
      TranslateAppend(input[..i], input[i..]);
      assert input[..i] + input[i..] == input;
      assert m.start in {m.start};
    }
  }

  /** Closing a tracked set that is already closed changes nothing. */
  lemma TracksClosed(m: NFA, input: string, cur: set<nat>)
    requires Closed(m, cur) && Tracks(m, input, |input|, cur)
    ensures EpsilonTransition(m, cur) == cur
  {
    assert cur + Post(m, cur, Epsilon) == cur;
  }

  /** After the whole input, acceptance is meeting a final state. */
  lemma TracksEnd(m: NFA, input: string, cur: set<nat>)
    requires Tracks(m, input, |input|, cur)
    ensures cur * m.finals != {} <==> Accepts(m, input)
  {
    assert input[..|input|] == input;
    if cur * m.finals != {} {
      var f :| f in cur * m.finals;
      var s := ReachedFromPick(m, {m.start}, Translate(input), f);
      assert s == m.start;
    }
    if Accepts(m, input) {
      var f :| f in m.finals && Reaches(m, m.start, Translate(input), f);
      assert ReachedFrom(m, {m.start}, Translate(input), f) by {
        assert m.start in {m.start};
      }
      assert f in cur * m.finals;
    }
  }

  /** The loop of `acceptsString`: steps the closure of the start through
      every translated character, stopping early once no state is active. */
  method Simulate(m: NFA, input: string) returns (current: set<nat>, alive: bool)
    ensures alive ==> Closed(m, current) && Tracks(m, input, |input|, current)
    ensures !alive ==> !Accepts(m, input)
    ensures input == [] ==> alive
  {
    current := EpsilonTransition(m, {m.start});
    TracksStart(m, input);
    for i := 0 to |input|
      invariant Closed(m, current)
      invariant Tracks(m, input, i, current)
    {
      var stepped := Transition(m, current, TranslateInput(input[i]));
      TracksStep(m, input, i, current);
      current := EpsilonTransition(m, stepped);
      if current == {} {
        TracksDead(m, input, i + 1);
        return current, false;
      }
    }
    alive := true;
  }

  /** `acceptsString`: subset simulation from the closure of the start state,
      stepping on each translated character and closing again, giving up as
      soon as no state is active. It accepts exactly the language of `m`;
      on the empty input that is whether the start's closure meets a final. */
  method AcceptsString(m: NFA, input: string) returns (accepted: bool)
    ensures accepted <==> Accepts(m, input)
    ensures input == [] ==> (accepted <==> EpsilonTransition(m, {m.start}) * m.finals != {})
  {
    var current, alive := Simulate(m, input);
    if !alive {
      return false;
    }
    if input == [] {
      TracksStart(m, input);
      TracksUnique(m, input, 0, current, EpsilonTransition(m, {m.start}));
    }
    TracksClosed(m, input, current);
    current := EpsilonTransition(m, current);
    accepted := current * m.finals != {};
    TracksEnd(m, input, current);
  }
}
