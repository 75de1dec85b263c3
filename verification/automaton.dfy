/** The automaton value of the regex engine (src/NFA.java): a set of integer
    states, a transition map keyed by (state, label) whose entries are sets of
    destination states, one start state and a set of final states.

    The source keeps a process-wide counter that issues state numbers; here the
    counter is an explicit `next: nat` that callers thread through, and every
    operation that allocates a state takes it and returns its successor. */
module Automaton {

  datatype Option<+T> = None | Some(value: T)

  /** A key of the transition map: a source state and an edge label. */
  datatype QSig = QSig(q: nat, sig: char)

  type Transitions = map<QSig, set<nat>>

  datatype NFA = NFA(states: set<nat>, transitions: Transitions, start: nat, finals: set<nat>)

  /** The label reserved for epsilon edges. */
  const Epsilon: char := 'e'

  /** The destinations stored under key `k`, none when the key is absent. */
  function Lookup(t: Transitions, k: QSig): set<nat> {
    if k in t then t[k] else {}
  }

  /** The `sig`-successors of `q`: what `getTransitions` holds, guarded by
      `hasTransition` as every caller in the source does. */
  function Succ(m: NFA, q: nat, sig: char): set<nat> {
    Lookup(m.transitions, QSig(q, sig))
  }

  /** The class invariant every mutator keeps: the start and the finals are
      member states, and every stored edge joins two member states. Entries are
      never empty, because an entry is only created together with its first
      destination. */
  predicate Valid(m: NFA) {
    && m.start in m.states
    && m.finals <= m.states
    && forall k :: k in m.transitions ==>
         k.q in m.states && m.transitions[k] != {} && m.transitions[k] <= m.states
  }

  /** Every state of `m` was issued before the counter reached `next`. */
  predicate Below(m: NFA, next: nat) {
    forall q :: q in m.states ==> q < next
  }

  /** Every state of `m` was issued while the counter went from `lo` to `hi`. */
  predicate StatesIn(m: NFA, lo: nat, hi: nat) {
    forall q :: q in m.states ==> lo <= q < hi
  }

  lemma ValidSucc(m: NFA, q: nat, sig: char)
    requires Valid(m)
    ensures Succ(m, q, sig) <= m.states
    ensures q !in m.states ==> Succ(m, q, sig) == {}
  {
  }

  /** The constructor: one fresh state that is the start, no edges, no finals. */
  function NewNFA(next: nat): (r: (NFA, nat))
    ensures Valid(r.0) && Below(r.0, r.1) && StatesIn(r.0, next, r.1)
    ensures r.0.states == {r.0.start} && r.0.finals == {}
    ensures forall q, sig :: Succ(r.0, q, sig) == {}
  {
    (NFA({next}, map[], next, {}), next + 1)
  }

  /** `addState()`: registers the state the counter issues next and returns
      it; the counter moves on by one. */
  function AddState(m: NFA, next: nat): (r: (NFA, nat))
    ensures r.1 == next
    ensures r.0.states == m.states + {r.1}
    ensures r.0.transitions == m.transitions && r.0.start == m.start && r.0.finals == m.finals
    ensures Below(m, next) ==> r.1 !in m.states && Below(r.0, next + 1)
    ensures Valid(m) ==> Valid(r.0)
  {
    (m.(states := m.states + {next}), next)
  }

  /** `translateInput`: lower-case letters read as the letter class 'a',
      digits as the digit class 'd', anything else as itself. */
  function TranslateInput(c: char): (r: char)
    ensures r != Epsilon
    ensures (r == 'a' || r == 'd') <==> ('a' <= c <= 'z' || '0' <= c <= '9')
    ensures 'a' <= c <= 'z' ==> r == 'a'
    ensures '0' <= c <= '9' ==> r == 'd'
    ensures !('a' <= c <= 'z' || '0' <= c <= '9') ==> r == c
  {
    if 'a' <= c <= 'z' then 'a'
    else if '0' <= c <= '9' then 'd'
    else c
  }

  /** The symbol word an input string is matched as. */
  function Translate(s: string): (r: seq<char>)
    ensures |r| == |s|
    ensures forall i :: 0 <= i < |s| ==> r[i] == TranslateInput(s[i])
  {
    seq(|s|, i requires 0 <= i < |s| => TranslateInput(s[i]))
  }

  lemma TranslateAppend(s: string, t: string)
    ensures Translate(s + t) == Translate(s) + Translate(t)
  {
  }

  lemma TranslatePrefix(s: string, i: nat)
    requires i < |s|
    ensures Translate(s[..i + 1]) == Translate(s[..i]) + [TranslateInput(s[i])]
  {
  }

  /** `addTransition`: fails and changes nothing unless both ends are member
      states; otherwise adds `dst` to the entry of (`src`, `sig`), keeping the
      destinations already there. */
  function AddTransition(m: NFA, src: nat, sig: char, dst: nat): (r: (NFA, bool))
    ensures r.1 <==> src in m.states && dst in m.states
    ensures !r.1 ==> r.0 == m
    ensures r.0.states == m.states && r.0.start == m.start && r.0.finals == m.finals
    ensures r.1 ==> Succ(r.0, src, sig) == Succ(m, src, sig) + {dst}
    ensures forall q, s :: q != src || s != sig ==> Succ(r.0, q, s) == Succ(m, q, s)
    ensures Valid(m) ==> Valid(r.0)
  {
    if src !in m.states then (m, false)
    else if dst !in m.states then (m, false)
    else
      var k := QSig(src, sig);
      (m.(transitions := m.transitions[k := Lookup(m.transitions, k) + {dst}]), true)
  }

  /** `hasTransition`: whether an entry for (`q`, `sig`) exists. */
  function HasTransition(m: NFA, q: nat, sig: char): (r: bool)
    ensures Valid(m) ==> (r <==> Succ(m, q, sig) != {})
    ensures Valid(m) && r ==> q in m.states
  {
    QSig(q, sig) in m.transitions
  }

  /** `getTransitions`: the entry for (`q`, `sig`), or None (Java's null). */
  function GetTransitions(m: NFA, q: nat, sig: char): (r: Option<set<nat>>)
    ensures r.Some? <==> HasTransition(m, q, sig)
    ensures r.None? ==> Succ(m, q, sig) == {}
    ensures r.Some? ==> r.value == Succ(m, q, sig)
    ensures Valid(m) && r.Some? ==> r.value != {} && r.value <= m.states
  {
    var k := QSig(q, sig);
    if k in m.transitions then Some(m.transitions[k]) else None
  }

  /** `setStartState`: fails and changes nothing for a non-member. */
  function SetStartState(m: NFA, s: nat): (r: (NFA, bool))
    ensures r.1 <==> s in m.states
    ensures !r.1 ==> r.0 == m
    ensures r.1 ==> r.0.start == s
    ensures r.0.states == m.states && r.0.transitions == m.transitions && r.0.finals == m.finals
    ensures Valid(m) ==> Valid(r.0)
  {
    if s !in m.states then (m, false) else (m.(start := s), true)
  }

  /** `clearFinalStates`: no state stays final (the source always reports true). */
  function ClearFinalStates(m: NFA): (r: NFA)
    ensures r.finals == {}
    ensures r.states == m.states && r.transitions == m.transitions && r.start == m.start
    ensures Valid(m) ==> Valid(r)
  {
    m.(finals := {})
  }

  /** `addFinalState`: fails and changes nothing for a non-member or a state
      that is already final; otherwise the final set grows by exactly `s`. */
  function AddFinalState(m: NFA, s: nat): (r: (NFA, bool))
    ensures r.1 <==> s in m.states && s !in m.finals
    ensures !r.1 ==> r.0 == m
    ensures r.1 ==> r.0.finals == m.finals + {s} && |r.0.finals| == |m.finals| + 1
    ensures r.0.states == m.states && r.0.transitions == m.transitions && r.0.start == m.start
    ensures Valid(m) ==> Valid(r.0)
  {
    if s !in m.states then (m, false)
    else if s in m.finals then (m, false)
    else (m.(finals := m.finals + {s}), true)
  }

  /** `addAllStates`: every state of `other` becomes a member. */
  function AddAllStates(m: NFA, other: set<nat>): (r: NFA)
    ensures r.states == m.states + other
    ensures r.transitions == m.transitions && r.start == m.start && r.finals == m.finals
    ensures other <= m.states ==> r == m
    ensures Valid(m) ==> Valid(r)
  {
    m.(states := m.states + other)
  }

  /** `addAllTransitions`: `addTransition` for every edge of `t`. An edge whose
      ends are not both member states is refused, exactly as the guarded
      mutator refuses it, and an entry is created only with a destination. */
  function AddAllTransitions(m: NFA, t: Transitions): (r: NFA)
    ensures r.states == m.states && r.start == m.start && r.finals == m.finals
    ensures forall q, sig :: Succ(r, q, sig) ==
              Succ(m, q, sig) + (if q in m.states then Lookup(t, QSig(q, sig)) * m.states else {})
    ensures Valid(m) ==> Valid(r)
  {
    var added := set k | k in t && k.q in m.states && t[k] * m.states != {};
    var merged := map k | k in m.transitions.Keys + added ::
                    Lookup(m.transitions, k) + (if k.q in m.states then Lookup(t, k) * m.states else {});
    m.(transitions := merged)
  }

  /** Merging a one-edge map is the guarded `addTransition` of that edge:
      the bulk merge agrees with the per-edge mutator it loops over. */
  lemma AddAllTransitionsSingle(m: NFA, src: nat, sig: char, dst: nat)
    ensures AddAllTransitions(m, map[QSig(src, sig) := {dst}]) == AddTransition(m, src, sig, dst).0
  {
    var t := map[QSig(src, sig) := {dst}];
    var a := AddAllTransitions(m, t);
    var b := AddTransition(m, src, sig, dst).0;
    forall k | k in a.transitions
      ensures k in b.transitions && a.transitions[k] == b.transitions[k]
    {
      assert Succ(a, k.q, k.sig) == a.transitions[k];
    }
    forall k | k in b.transitions
      ensures k in a.transitions
    {
      if k !in m.transitions {
        assert k == QSig(src, sig) && src in m.states && dst in m.states;
        assert Lookup(t, k) * m.states == {dst};
      }
    }
  }

  /** The loop `for (q : srcs) addTransition(q, sig, dst)`. */
  function AddEdgesTo(m: NFA, srcs: set<nat>, sig: char, dst: nat): (r: NFA)
    ensures r.states == m.states && r.start == m.start && r.finals == m.finals
    ensures forall q, s :: Succ(r, q, s) ==
              Succ(m, q, s) + (if s == sig && q in srcs && q in m.states && dst in m.states then {dst} else {})
    ensures Valid(m) ==> Valid(r)
  {
    var t := map q | q in srcs :: QSig(q, sig) := {dst};
    assert forall q, s :: Lookup(t, QSig(q, s)) == (if s == sig && q in srcs then {dst} else {});
    AddAllTransitions(m, t)
  }

  /** The loop `for (f : fs) addFinalState(f)`. */
  function AddFinals(m: NFA, fs: set<nat>): (r: NFA)
    ensures r.finals == m.finals + fs * m.states
    ensures r.states == m.states && r.transitions == m.transitions && r.start == m.start
    ensures Valid(m) ==> Valid(r)
  {
    m.(finals := m.finals + fs * m.states)
  }

  /** Taking one more state into the loop is one more guarded
      `addFinalState` call, whichever order the loop visits the states in. */
  lemma AddFinalsStep(m: NFA, fs: set<nat>, x: nat)
    ensures AddFinals(m, fs + {x}) == AddFinalState(AddFinals(m, fs), x).0
  {
  }
}
