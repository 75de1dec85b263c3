/** Operations on languages, a language being a predicate on symbol words. */
module Languages {

  /** Kleene star: the empty word, or a non-empty word of `L` followed by a
      word of the star. */
  ghost predicate StarOf(L: seq<char> -> bool, w: seq<char>)
    decreases |w|
  {
    w == [] || exists k :: 0 < k <= |w| && L(w[..k]) && StarOf(L, w[k..])
  }

  /** The star of `L` as a language value. */
  ghost function Kleene(L: seq<char> -> bool): seq<char> -> bool {
    u => StarOf(L, u)
  }

  /** A non-empty word of the star starts with a non-empty word of `L`. */
  lemma StarOfFirst(L: seq<char> -> bool, w: seq<char>) returns (k: nat)
    requires w != [] && StarOf(L, w)
    ensures 0 < k <= |w| && L(w[..k]) && StarOf(L, w[k..])
  {
    k :| 0 < k <= |w| && L(w[..k]) && StarOf(L, w[k..]);
  }

  /** Concatenation: `w` splits into a word of `L1` then a word of `L2`. */
  ghost predicate ConcatOf(L1: seq<char> -> bool, L2: seq<char> -> bool, w: seq<char>) {
    exists k :: 0 <= k <= |w| && L1(w[..k]) && L2(w[k..])
  }

  /** A word of the concatenation splits at some point. */
  lemma ConcatOfSplit(L1: seq<char> -> bool, L2: seq<char> -> bool, w: seq<char>) returns (k: nat)
    requires ConcatOf(L1, L2, w)
    ensures k <= |w| && L1(w[..k]) && L2(w[k..])
  {
    k :| 0 <= k <= |w| && L1(w[..k]) && L2(w[k..]);
  }

  /** Concatenation only depends on which words the two languages hold. */
  lemma ConcatOfSame(L1: seq<char> -> bool, L2: seq<char> -> bool, M1: seq<char> -> bool, M2: seq<char> -> bool, w: seq<char>)
    requires forall u :: L1(u) == M1(u)
    requires forall u :: L2(u) == M2(u)
    ensures ConcatOf(L1, L2, w) == ConcatOf(M1, M2, w)
  {
  }

  /** A word of `L` followed by a word of `L*` is in `L*`, the empty word
      of `L` included. */
  lemma StarCons(L: seq<char> -> bool, u: seq<char>, v: seq<char>)
    requires L(u) && StarOf(L, v)
    ensures StarOf(L, u + v)
  {
    if u != [] {
      assert (u + v)[..|u|] == u && (u + v)[|u|..] == v;
    } else {
      assert u + v == v;
    }
  }

  /** The star only depends on which words the language holds. */
  lemma {:induction false} StarOfSame(L1: seq<char> -> bool, L2: seq<char> -> bool, w: seq<char>)
    requires forall u :: L1(u) == L2(u)
    ensures StarOf(L1, w) == StarOf(L2, w)
    decreases |w|
  {
    if w != [] {
      forall k | 0 < k <= |w| ensures StarOf(L1, w[k..]) == StarOf(L2, w[k..]) {
        StarOfSame(L1, L2, w[k..]);
      }
    }
  }

  /** The star of a one-word language `{[c]}` is every repetition of `c`. */
  lemma {:induction false} StarOfSymbol(L: seq<char> -> bool, c: char, w: seq<char>)
    requires forall u :: L(u) <==> u == [c]
    ensures StarOf(L, w) <==> forall i :: 0 <= i < |w| ==> w[i] == c
    decreases |w|
  {
    if w != [] {
      StarOfSymbol(L, c, w[1..]);
      if forall i :: 0 <= i < |w| ==> w[i] == c {
        assert w[..1] == [c];
        assert forall i :: 0 <= i < |w[1..]| ==> w[1..][i] == c;
      }
      if StarOf(L, w) {
        var k :| 0 < k <= |w| && L(w[..k]) && StarOf(L, w[k..]);
        assert w[..k] == [c];
        assert k == 1;
        forall i | 0 <= i < |w| ensures w[i] == c {
          if i > 0 {
            assert w[i] == w[1..][i - 1];
          }
        }
      }
    }
  }
}
