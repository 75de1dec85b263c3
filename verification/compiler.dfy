/** The compiler `buildNFA` of src/Main.java:49-149: recursive descent over
    the regular expression text, building one machine per call and gluing
    them with the combinators. Each call states, besides the shape facts the
    next call relies on, that it returns null exactly on `NullExp`, throws
    exactly on `Crashes`, and otherwise returns a machine that accepts
    exactly the words `Lang` gives the text.

    The counter is threaded through in the order the source allocates
    states. The flag `keepRest` selects between the code as written
    (`false`: the `a*` branch drops the text after the `*`) and the behaviour
    the comment at src/Main.java:94-96 describes (`true`: the rest is
    concatenated). */
module Compiler {
  import opened Automaton
  import opened Paths
  import opened Languages
  import opened Combinators
  import opened CombinatorLaws
  import opened Split
  import opened Regex
  import opened Steps

  /** `m` accepts exactly the words of `exp`. */
  ghost predicate Means(m: NFA, exp: string, keepRest: bool) {
    Denotes(m, LangOf(exp, keepRest))
  }

  /** What `buildNFA(exp)` may answer, allocating from counter `next` on:
      null exactly for the texts `NullExp` names, a throw exactly for the
      texts `Crashes` names, and otherwise a good machine that accepts
      exactly the words of `exp`. */
  ghost predicate Outcome(r: Build, exp: string, next: nat, keepRest: bool) {
    && (r.Null? <==> NullExp(exp))
    && (r.Crash? <==> Crashes(exp, keepRest))
    && (r.Built? ==> Good(r.m, next, r.next) && Means(r.m, exp, keepRest))
  }

  /** `buildNFA`: null for the empty text, a union when the text holds a
      'U', a literal when it starts with 'a' or 'd', a starred group when it
      starts with '(', and null otherwise. */
  method Compile(exp: string, next: nat, keepRest: bool) returns (r: Build)
    ensures Outcome(r, exp, next, keepRest)
    decreases |exp|, 2
  {
    if |exp| == 0 {
      r := Null;
    } else if Bar in exp {
      r := CompileUnion(exp, next, keepRest);
    } else if exp[0] == 'a' || exp[0] == 'd' {
      r := CompileLiteral(exp, next, keepRest);
    } else if exp[0] == '(' {
      r := CompileGroup(exp, next, keepRest);
    } else {
      r := Null;
    }
  }

  /** The code as written. */
  method BuildNFA(exp: string, next: nat) returns (r: Build)
    ensures Outcome(r, exp, next, false)
  {
    r := Compile(exp, next, false);
  }

  /** The compiler with the text after `c*` concatenated, as the comment at
      src/Main.java:94-96 describes. */
  method BuildNFAIntended(exp: string, next: nat) returns (r: Build)
    ensures Outcome(r, exp, next, true)
  {
    r := Compile(exp, next, true);
  }

  /** src/Main.java:69-81: compile every segment of the split in order, then
      union the first machine with itself and with every later one. A crash
      in a segment, an empty split or a null first segment is a crash. */
  method CompileUnion(exp: string, next: nat, keepRest: bool) returns (r: Build)
    requires Bar in exp
    ensures !r.Null? && Outcome(r, exp, next, keepRest)
    decreases |exp|, 1
  {
    var segs := JavaSplit(exp);
    var all := CompileAll(exp, segs, next, keepRest);
    if all.SegCrash? || |all.ms| == 0 || all.ms[0].None? {
      return Crash;
    }
    var ms, n := all.ms, all.next;
    var first := ms[0].value;
    var (m1, n1) := UnionSelf(first, n);
    FoldReady(ms, next, n);
    var (m2, n2) := FoldUnion(m1, next, n1, ms[1..]);
    r := Built(m2, n2);
    forall w ensures AcceptsWord(m2, w) == Lang(exp, w, keepRest) {
      FoldLang(m1, next, n1, ms[1..], w);
      UnionSelfLanguage(first, n, w);
      SomeAcceptsCons(ms, w);
      SegsLang(ms, segs, w, keepRest);
    }
  }

  /** The loop `for (i ...) builtNfas[i] = buildNFA(segments[i])`: the
      machines of the segments in order, each on fresh states, or a crash as
      soon as one segment crashes. */
  method CompileAll(exp: string, segs: seq<string>, next: nat, keepRest: bool) returns (r: Builds)
    requires forall i :: 0 <= i < |segs| ==> |segs[i]| < |exp|
    ensures r.Segs? <==> forall i :: 0 <= i < |segs| ==> !Crashes(segs[i], keepRest)
    ensures r.Segs? ==> |r.ms| == |segs| && next <= r.next
    ensures r.Segs? ==> Fits(r.ms, next, r.next) && Apart(r.ms)
    ensures r.Segs? ==> forall i :: 0 <= i < |segs| ==> (r.ms[i].None? <==> NullExp(segs[i]))
    ensures r.Segs? ==> forall i :: 0 <= i < |segs| && r.ms[i].Some? ==> Means(r.ms[i].value, segs[i], keepRest)
    decreases |exp|, 0
  {
    var ms: seq<Option<NFA>> := [];
    var n := next;
    var i := 0;
    while i < |segs|
      invariant 0 <= i <= |segs| && |ms| == i && next <= n
      invariant Fits(ms, next, n) && Apart(ms)
      invariant forall j :: 0 <= j < i ==> !Crashes(segs[j], keepRest)
      invariant forall j :: 0 <= j < i ==> (ms[j].None? <==> NullExp(segs[j]))
      invariant forall j :: 0 <= j < i && ms[j].Some? ==> Means(ms[j].value, segs[j], keepRest)
    {
      var b := Compile(segs[i], n, keepRest);
      if b.Crash? {
        return SegCrash;
      }
      var last := if b.Built? then Some(b.m) else None;
      var n1 := if b.Built? then b.next else n;
      SnocSegs(ms, last, next, n, n1);
      ms, n := ms + [last], n1;
      i := i + 1;
    }
    r := Segs(ms, n);
  }

  /** Between them the segment machines accept the words of the segments. */
  lemma SegsLang(ms: seq<Option<NFA>>, segs: seq<string>, w: seq<char>, keepRest: bool)
    requires |ms| == |segs|
    requires forall i :: 0 <= i < |segs| ==> (ms[i].None? <==> NullExp(segs[i]))
    requires forall i :: 0 <= i < |segs| && ms[i].Some? ==> Means(ms[i].value, segs[i], keepRest)
    ensures SomeAccepts(ms, w) <==> exists i :: 0 <= i < |segs| && Lang(segs[i], w, keepRest)
  {
  }

  /** src/Main.java:102-114: the two-state machine on the first symbol,
      starred when a '*' follows (and then, as written, nothing after the
      '*' is compiled), otherwise concatenated with the rest. */
  method CompileLiteral(exp: string, next: nat, keepRest: bool) returns (r: Build)
    requires |exp| > 0 && (exp[0] == 'a' || exp[0] == 'd') && Bar !in exp
    ensures !r.Null? && Outcome(r, exp, next, keepRest)
    decreases |exp|, 1
  {
    var c := exp[0];
    var (lit, n) := Literal(c, next);
    LiteralGood(c, next);
    LiteralLang(c, next);
    if |exp| > 1 && exp[1] == '*' {
      var rest := Null;
      if keepRest {
        rest := Compile(exp[2..], n + 1, keepRest);
      }
      r := StarThen(lit, next, n, rest);
      if !rest.Crash? {
        StarMeans(exp, keepRest, lit, next, n, rest, r);
      }
    } else {
      var rest := Compile(exp[1..], n, keepRest);
      r := ThenRest(lit, next, n, rest);
      if !rest.Crash? {
        LiteralMeans(exp, keepRest, lit, next, n, rest, r);
      }
    }
  }

  /** The literal followed by the rest, or alone when the rest is null,
      accepts the words of the literal text. */
  lemma LiteralMeans(exp: string, keepRest: bool, lit: NFA, lo: nat, n: nat, rest: Build, r: Build)
    requires |exp| > 0 && (exp[0] == 'a' || exp[0] == 'd') && !(|exp| > 1 && exp[1] == '*') && Bar !in exp
    requires Good(lit, lo, n) && Denotes(lit, Sym(exp[0]))
    requires !rest.Crash? && (rest.Null? <==> NullExp(exp[1..]))
    requires rest.Built? ==> Good(rest.m, n, rest.next) && Means(rest.m, exp[1..], keepRest)
    requires rest.Null? ==> r == Built(lit, n)
    requires rest.Built? ==> r.Built? && ConcatShape(r.m, lit, rest.m)
    ensures r.Built? && Means(r.m, exp, keepRest)
  {
    ThenRestLang(lit, lo, n, Sym(exp[0]), rest, LangOf(exp[1..], keepRest), r);
    forall w ensures AcceptsWord(r.m, w) == LangOf(exp, keepRest)(w) {
      assert LangOf(exp, keepRest)(w) == Lang(exp, w, keepRest);
    }
  }

  /** `c*`, followed by the rest when it is kept, accepts the words of the
      literal text. */
  lemma StarMeans(exp: string, keepRest: bool, lit: NFA, lo: nat, n: nat, rest: Build, r: Build)
    requires |exp| > 1 && (exp[0] == 'a' || exp[0] == 'd') && exp[1] == '*' && Bar !in exp
    requires Good(lit, lo, n) && Denotes(lit, Sym(exp[0]))
    requires !rest.Crash? && (rest.Null? <==> !keepRest || NullExp(exp[2..]))
    requires rest.Built? ==> Good(rest.m, n + 1, rest.next) && Means(rest.m, exp[2..], keepRest)
    requires StarredThen(r, lit, lo, n, rest)
    ensures r.Built? && Means(r.m, exp, keepRest)
  {
    var c := exp[0];
    var st :| && StarShape(st, lit, n) && Good(st, lo, n + 1)
              && (rest.Null? ==> r == Built(st, n + 1))
              && (rest.Built? ==> r.Built? && ConcatShape(r.m, st, rest.m));
    StarLang(st, lit, n, Sym(c));
    forall w ensures Kleene(Sym(c))(w) == Rep(c)(w) {
      StarOfSymbol(Sym(c), c, w);
    }
    ThenRestLang(st, lo, n + 1, Rep(c), rest, LangOf(exp[2..], keepRest), r);
    forall w ensures AcceptsWord(r.m, w) == LangOf(exp, keepRest)(w) {
      assert LangOf(exp, keepRest)(w) == Lang(exp, w, keepRest);
    }
  }

  /** src/Main.java:130-143: the text up to the first ')' is compiled and
      starred (a null group is a crash), the character after the ')' is
      skipped unread, and whatever follows is concatenated. */
  method CompileGroup(exp: string, next: nat, keepRest: bool) returns (r: Build)
    requires |exp| > 0 && exp[0] == '(' && Bar !in exp
    ensures !r.Null? && Outcome(r, exp, next, keepRest)
    decreases |exp|, 1
  {
    var i := FindClose(exp, 1);
    var inner := Compile(exp[1..i], next, keepRest);
    if !inner.Built? {
      GroupCrashes(exp, keepRest);
      return Crash;
    }
    r := GroupTail(exp, i, inner.m, next, inner.next, keepRest);
  }

  /** src/Main.java:138-141: the compiled inside `m` of the group starred
      with the next fresh state, then concatenated with the machine of the
      text two characters past the ')', when there is such text. */
  method GroupTail(exp: string, i: nat, m: NFA, lo: nat, n: nat, keepRest: bool) returns (r: Build)
    requires |exp| > 0 && exp[0] == '(' && Bar !in exp && i == FindClose(exp, 1)
    requires !NullExp(exp[1..i]) && !Crashes(exp[1..i], keepRest)
    requires Good(m, lo, n) && Means(m, exp[1..i], keepRest)
    ensures !r.Null? && Outcome(r, exp, lo, keepRest)
    decreases |exp|, 0
  {
    var tail := if i + 2 < |exp| then exp[i + 2..] else [];
    var rest := Null;
    if i + 2 < |exp| {
      rest := Compile(tail, n + 1, keepRest);
    }
    r := StarThen(m, lo, n, rest);
    GroupCrash(exp, keepRest, i, tail, rest.Crash?);
    if !rest.Crash? {
      GroupMeans(exp, keepRest, i, m, lo, n, tail, rest, r);
    }
  }

  /** A group whose inside compiles throws exactly when its rest does. */
  lemma GroupCrash(exp: string, keepRest: bool, i: nat, tail: string, restCrashes: bool)
    requires |exp| > 0 && exp[0] == '(' && Bar !in exp && i == FindClose(exp, 1)
    requires !NullExp(exp[1..i]) && !Crashes(exp[1..i], keepRest)
    requires tail == if i + 2 < |exp| then exp[i + 2..] else []
    requires restCrashes <==> i + 2 < |exp| && Crashes(tail, keepRest)
    ensures Crashes(exp, keepRest) <==> restCrashes
  {
  }

  /** The starred group followed by its rest accepts the words of the whole
      group text. */
  lemma GroupMeans(exp: string, keepRest: bool, i: nat, m: NFA, lo: nat, n: nat, tail: string, rest: Build, r: Build)
    requires |exp| > 0 && exp[0] == '(' && Bar !in exp && i == FindClose(exp, 1)
    requires Good(m, lo, n) && Means(m, exp[1..i], keepRest)
    requires tail == if i + 2 < |exp| then exp[i + 2..] else []
    requires !rest.Crash? && (rest.Null? <==> NullExp(tail))
    requires rest.Built? ==> Good(rest.m, n + 1, rest.next) && Means(rest.m, tail, keepRest)
    requires StarredThen(r, m, lo, n, rest)
    ensures r.Built? && Means(r.m, exp, keepRest)
  {
    var st :| && StarShape(st, m, n) && Good(st, lo, n + 1)
              && (rest.Null? ==> r == Built(st, n + 1))
              && (rest.Built? ==> r.Built? && ConcatShape(r.m, st, rest.m));
    StarLang(st, m, n, LangOf(exp[1..i], keepRest));
    ThenRestLang(st, lo, n + 1, Group(exp[1..i], keepRest), rest, LangOf(tail, keepRest), r);
    forall w ensures AcceptsWord(r.m, w) == Lang(exp, w, keepRest) {
      GroupLang(exp, w, keepRest);
    }
  }
}
