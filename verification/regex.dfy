/** The small regular expression language `buildNFA` (src/Main.java:49-149)
    reads, given a meaning of its own that never mentions a machine: which
    texts compile to nothing, which make the compiler throw, and which words
    every other text denotes. The alphabet has two classes: 'a' (a letter) and
    'd' (a digit), as produced by `translateInput`. */
module Regex {
  import opened Languages
  import opened Split

  /** The expressions `buildNFA` answers with null: the empty text, and text
      without 'U' that does not start with 'a', 'd' or '('. */
  predicate NullExp(exp: string) {
    |exp| == 0 || (Bar !in exp && exp[0] != 'a' && exp[0] != 'd' && exp[0] != '(')
  }

  /** The scan of src/Main.java:133-136: the first ')' at or after `i`, or the
      end of the text. */
  function FindClose(exp: string, i: nat): (r: nat)
    requires i <= |exp|
    ensures i <= r <= |exp|
    ensures forall j :: i <= j < r ==> exp[j] != ')'
    ensures r < |exp| ==> exp[r] == ')'
    decreases |exp| - i
  {
    if i == |exp| || exp[i] == ')' then i else FindClose(exp, i + 1)
  }

  /** The texts on which `buildNFA` throws: a union whose split is empty or
      whose first segment compiles to null (`mainNfa.union` on a null
      receiver), a group whose inside compiles to null (`mainNfa.star` on a
      null receiver), and any text that has such a text compiled inside it.
      With `keepRest == false` the text after `c*` is never compiled, so it
      cannot make the compilation throw. */
  predicate Crashes(exp: string, keepRest: bool)
    decreases |exp|
  {
    if |exp| == 0 then false
    else if Bar in exp then
      var segs := JavaSplit(exp);
      segs == [] || NullExp(segs[0]) || exists i :: 0 <= i < |segs| && Crashes(segs[i], keepRest)
    else if exp[0] == 'a' || exp[0] == 'd' then
      if |exp| > 1 && exp[1] == '*' then keepRest && Crashes(exp[2..], keepRest)
      else Crashes(exp[1..], keepRest)
    else if exp[0] == '(' then
      var i := FindClose(exp, 1);
      || NullExp(exp[1..i])
      || Crashes(exp[1..i], keepRest)
      || (i + 2 < |exp| && Crashes(exp[i + 2..], keepRest))
    else false
  }

  /** Every symbol of `w` is `c`. */
  predicate AllAre(w: seq<char>, c: char) {
    forall i :: 0 <= i < |w| ==> w[i] == c
  }

  /** The one-word language `{[c]}`. */
  ghost function Sym(c: char): seq<char> -> bool {
    u => u == [c]
  }

  /** The language `c*`. */
  ghost function Rep(c: char): seq<char> -> bool {
    u => AllAre(u, c)
  }

  /** The words of `exp` read as a regular expression, for the compiler as
      written (`keepRest == false`) or with the text after `c*` kept:
      - the empty text denotes nothing;
      - text with a 'U' denotes the union of its split segments;
      - `c` followed by the rest denotes `c` then the rest, `c*` denotes any
        number of `c` (then the rest, when it is kept);
      - `(g)` and one more character denote the star of `g`, then the rest;
      - anything else denotes nothing.
      A rest that compiles to nothing is left off rather than denoting the
      empty language, as `concatenate(null)` leaves the receiver alone. */
  ghost predicate Lang(exp: string, w: seq<char>, keepRest: bool)
    decreases |exp|, 1
  {
    if |exp| == 0 then false
    else if Bar in exp then
      var segs := JavaSplit(exp);
      exists i :: 0 <= i < |segs| && Lang(segs[i], w, keepRest)
    else if exp[0] == 'a' || exp[0] == 'd' then
      if |exp| > 1 && exp[1] == '*' then
        if keepRest then ThenLang(Rep(exp[0]), exp[2..], w, keepRest) else AllAre(w, exp[0])
      else ThenLang(Sym(exp[0]), exp[1..], w, keepRest)
    else if exp[0] == '(' then
      var i := FindClose(exp, 1);
      if i + 2 < |exp| then ThenLang(Group(exp[1..i], keepRest), exp[i + 2..], w, keepRest)
      else Group(exp[1..i], keepRest)(w)
    else false
  }

  /** `Lang` as a value. */
  ghost function LangOf(exp: string, keepRest: bool): seq<char> -> bool
    decreases |exp|, 2
  {
    u => Lang(exp, u, keepRest)
  }

  /** The star of the group `exp`. */
  ghost function Group(exp: string, keepRest: bool): seq<char> -> bool
    decreases |exp|, 3
  {
    Kleene(LangOf(exp, keepRest))
  }

  /** `L` followed by the words of `rest`, or `L` alone when `rest` compiles
      to nothing. */
  ghost predicate ThenLang(L: seq<char> -> bool, rest: string, w: seq<char>, keepRest: bool)
    decreases |rest|, 3
  {
    if NullExp(rest) then L(w) else ConcatOf(L, LangOf(rest, keepRest), w)
  }

  // ------------------------------------------------------------ unfolding

  /** A group throws when its inside is null or throws, or its rest throws. */
  lemma GroupCrashes(exp: string, keepRest: bool)
    requires |exp| > 0 && exp[0] == '(' && Bar !in exp
    ensures var i := FindClose(exp, 1);
      Crashes(exp, keepRest) <==>
        || NullExp(exp[1..i])
        || Crashes(exp[1..i], keepRest)
        || (i + 2 < |exp| && Crashes(exp[i + 2..], keepRest))
  {
  }

  /** A group denotes the star of its inside, then its rest when that
      compiles to something. */
  lemma GroupLang(exp: string, w: seq<char>, keepRest: bool)
    requires |exp| > 0 && exp[0] == '(' && Bar !in exp
    ensures var i := FindClose(exp, 1);
      var tail := if i + 2 < |exp| then exp[i + 2..] else [];
      Lang(exp, w, keepRest) == (if NullExp(tail) then Group(exp[1..i], keepRest)(w) else ConcatOf(Group(exp[1..i], keepRest), LangOf(tail, keepRest), w))
  {
  }
}
