/** `String.split("U")` as src/Main.java:70 uses it: the text is cut at every
    'U', the pieces are kept in order (a leading empty piece included) and the
    empty pieces at the end are dropped, as Java's `split` with the default
    limit does. */
module Split {

  const Bar: char := 'U'

  /** Every piece between two consecutive 'U's, empty ones included. */
  function Pieces(s: string): (r: seq<string>)
    ensures |r| >= 1
    ensures forall i :: 0 <= i < |r| ==> Bar !in r[i]
    ensures forall i :: 0 <= i < |r| ==> |r[i]| <= |s|
    ensures Bar in s ==> forall i :: 0 <= i < |r| ==> |r[i]| < |s|
    decreases |s|
  {
    if s == [] then [[]]
    else
      var t := Pieces(s[1..]);
      if s[0] == Bar then [[]] + t
      else [[s[0]] + t[0]] + t[1..]
  }

  /** The pieces put back together with a 'U' between neighbours. */
  function Join(r: seq<string>): string
    decreases |r|
  {
    if |r| <= 1 then (if r == [] then [] else r[0])
    else r[0] + [Bar] + Join(r[1..])
  }

  /** Cutting at every 'U' and joining again gives the text back. */
  lemma {:induction false} JoinPieces(s: string)
    ensures Join(Pieces(s)) == s
    decreases |s|
  {
    if s != [] {
      var t := Pieces(s[1..]);
      JoinPieces(s[1..]);
      if s[0] == Bar {
        assert Pieces(s) == [[]] + t;
        assert Pieces(s)[1..] == t;
        assert Join(Pieces(s)) == [] + [Bar] + Join(t);
        assert s == [Bar] + s[1..];
      } else {
        var r := [[s[0]] + t[0]] + t[1..];
        assert Pieces(s) == r;
        if |t| == 1 {
          assert Join(t) == t[0];
          assert Join(r) == [s[0]] + t[0];
        } else {
          assert r[1..] == t[1..];
          assert Join(t) == t[0] + [Bar] + Join(t[1..]);
          assert Join(r) == ([s[0]] + t[0]) + [Bar] + Join(t[1..]);
        }
        assert s == [s[0]] + s[1..];
      }
    }
  }

  /** `r` without its trailing empty strings. */
  function DropTrailingEmpty(r: seq<string>): (d: seq<string>)
    ensures |d| <= |r| && d == r[..|d|]
    ensures forall i :: |d| <= i < |r| ==> r[i] == []
    ensures d == [] || d[|d| - 1] != []
    decreases |r|
  {
    if r == [] then []
    else if r[|r| - 1] == [] then DropTrailingEmpty(r[..|r| - 1])
    else r
  }

  /** Java's `s.split("U")`. */
  function JavaSplit(s: string): (r: seq<string>)
    ensures forall i :: 0 <= i < |r| ==> Bar !in r[i]
    ensures Bar in s ==> forall i :: 0 <= i < |r| ==> |r[i]| < |s|
    ensures r == [] || r[|r| - 1] != []
  {
    DropTrailingEmpty(Pieces(s))
  }

  /** The split keeps every piece up to the last non-empty one, so putting
      back the dropped empty pieces and joining gives the text again. */
  lemma JavaSplitRoundTrip(s: string) returns (k: nat)
    ensures Join(JavaSplit(s) + Empties(k)) == s
  {
    var p := Pieces(s);
    var d := JavaSplit(s);
    k := |p| - |d|;
    assert d + Empties(k) == p;
    JoinPieces(s);
  }

  /** `k` empty strings. */
  function Empties(k: nat): (r: seq<string>)
    ensures |r| == k && forall i :: 0 <= i < k ==> r[i] == []
  {
    seq(k, _ => [])
  }
}
