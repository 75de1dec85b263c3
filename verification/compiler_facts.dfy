/** Consequences of the compiler's contract: what the machines it builds
    reject whatever the text, the outcome on small texts, and how the `c*`
    branch as written differs from the one the comment at
    src/Main.java:94-96 describes. The example lemmas take any machine that
    `Means` a text, which is what `Compiler.BuildNFA` returns for it. */
module CompilerFacts {
  import opened Automaton
  import opened Paths
  import opened Languages
  import opened Split
  import opened Regex
  import opened Steps
  import opened Compiler

  // ------------------------------------------------------------ alphabet

  /** A machine whose edges read only 'a', 'd' and epsilon rejects every
      input holding a character that is neither a lower-case letter nor a
      digit: `translateInput` passes such a character through unchanged and
      no edge reads it. */
  lemma LabelsReject(m: NFA, s: string, i: nat)
    requires Labels(m) && i < |s|
    requires !('a' <= s[i] <= 'z' || '0' <= s[i] <= '9')
    ensures !Accepts(m, s)
  {
    if Accepts(m, s) {
      var w := Translate(s);
      var f :| f in m.finals && Reaches(m, m.start, w, f);
      assert w == w[..i + 1] + w[i + 1..];
      var q := ReachesSplit(m, m.start, w[..i + 1], w[i + 1..], f);
      assert w[..i + 1] == w[..i] + [w[i]];
      var e := ReachesLast(m, m.start, w[..i], w[i], q);
      assert false;
    }
  }

  /** The inputs the examples below read, as `translateInput` sees them. */
  lemma TranslateExamples()
    ensures Translate("") == ""
    ensures Translate("x") == "a" && Translate("5") == "d"
    ensures Translate("xy") == "aa" && Translate("x5") == "ad" && Translate("5x") == "da"
  {
  }

  // ------------------------------------------------------------ literals

  /** A lone 'a' or 'd' compiles and denotes exactly that one symbol. */
  lemma LangSymbol(c: char, keepRest: bool)
    requires c == 'a' || c == 'd'
    ensures forall u :: Lang([c], u, keepRest) <==> u == [c]
    ensures !NullExp([c]) && !Crashes([c], keepRest)
  {
  }

  /** A word of `L1` then the one-symbol word `[c]`: the words ending in `c`
      whose front is in `L1`. */
  lemma ConcatEndsWith(L1: seq<char> -> bool, L2: seq<char> -> bool, c: char, w: seq<char>)
    requires forall u :: L2(u) <==> u == [c]
    ensures ConcatOf(L1, L2, w) <==> |w| > 0 && w[|w| - 1] == c && L1(w[..|w| - 1])
  {
  }

  /** "a" accepts one letter and nothing else; "ad" accepts a letter then
      a digit, not the other way round and not the empty input. */
  lemma LiteralExamples(m1: NFA, m2: NFA)
    requires Means(m1, "a", false) && Means(m2, "ad", false)
    ensures !NullExp("ad") && !Crashes("ad", false)
    ensures Accepts(m1, "x") && !Accepts(m1, "") && !Accepts(m1, "xy")
    ensures Accepts(m2, "x5") && !Accepts(m2, "5x") && !Accepts(m2, "")
  {
    LangSymbol('a', false);
    LangSymbol('d', false);
    TranslateExamples();
    assert "ad"[1..] == "d";
    ConcatEndsWith(Sym('a'), LangOf("d", false), 'd', "ad");
    ConcatEndsWith(Sym('a'), LangOf("d", false), 'd', "da");
    ConcatEndsWith(Sym('a'), LangOf("d", false), 'd', []);
    assert "ad"[..1] == "a";
  }

  // ------------------------------------------------------------ unions

  /** A text without 'U' is one piece. */
  lemma PiecesBarFree(s: string)
    requires Bar !in s
    ensures Pieces(s) == [s]
  {
    if s != [] {
      PiecesBarFree(s[1..]);
      assert [s[0]] + s[1..] == s;
    }
  }

  /** Java's split of two non-empty segments. */
  lemma SplitTwo()
    ensures JavaSplit("aUd") == ["a", "d"]
    ensures JavaSplit("aUx") == ["a", "x"]
  {
    PiecesBarFree("a");
    PiecesBarFree("d");
    PiecesBarFree("x");
    assert "aUd"[1..] == "Ud" && "Ud"[1..] == "d";
    assert "aUx"[1..] == "Ux" && "Ux"[1..] == "x";
    assert Pieces("Ud") == ["", "d"];
    assert Pieces("Ux") == ["", "x"];
    assert Pieces("aUd") == ["a", "d"];
    assert Pieces("aUx") == ["a", "x"];
  }

  /** Java's split drops trailing empty segments: "U" splits into nothing
      at all. */
  lemma SplitTrailing()
    ensures JavaSplit("aU") == ["a"]
    ensures JavaSplit("U") == []
  {
    PiecesBarFree("a");
    PiecesBarFree("");
    assert "aU"[1..] == "U" && "U"[1..] == "";
    assert Pieces("U") == ["", ""];
    assert Pieces("aU") == ["a", ""];
    var e: string := "";
    var u: seq<string> := [e, e];
    var v: seq<string> := ["a", e];
    assert u[..1] == [e] && [e][..0] == [];
    assert v[..1] == ["a"];
    assert DropTrailingEmpty([e]) == [];
    assert DropTrailingEmpty(u) == [];
    assert DropTrailingEmpty(v) == ["a"];
  }

  /** A text compiling to null neither throws nor denotes anything. */
  lemma NullDenotesNothing(exp: string, w: seq<char>, keepRest: bool)
    requires NullExp(exp)
    ensures !Crashes(exp, keepRest) && !Lang(exp, w, keepRest)
  {
  }

  /** A union of one segment is that segment, except that a null segment
      makes it throw. */
  lemma UnionOfOne(exp: string, a: string, w: seq<char>, keepRest: bool)
    requires Bar in exp && JavaSplit(exp) == [a]
    ensures Lang(exp, w, keepRest) <==> Lang(a, w, keepRest)
    ensures Crashes(exp, keepRest) <==> NullExp(a) || Crashes(a, keepRest)
  {
  }

  /** A union of two segments accepts what either accepts; it throws when
      the first is null or either throws, not when only the second is
      null. */
  lemma UnionOfTwo(exp: string, a: string, b: string, w: seq<char>, keepRest: bool)
    requires Bar in exp && JavaSplit(exp) == [a, b]
    ensures Lang(exp, w, keepRest) <==> Lang(a, w, keepRest) || Lang(b, w, keepRest)
    ensures Crashes(exp, keepRest) <==> NullExp(a) || Crashes(a, keepRest) || Crashes(b, keepRest)
  {
  }

  /** "aUd" compiles to a machine for one letter or one digit. */
  lemma UnionLangs(w: seq<char>)
    ensures !NullExp("aUd") && !Crashes("aUd", false)
    ensures Lang("aUd", w, false) <==> w == "a" || w == "d"
  {
    SplitTwo();
    LangSymbol('a', false);
    LangSymbol('d', false);
    UnionOfTwo("aUd", "a", "d", w, false);
  }

  /** "aUd" accepts a letter or a digit, neither the empty input nor both. */
  lemma UnionExamples(m: NFA)
    requires Means(m, "aUd", false)
    ensures Accepts(m, "x") && Accepts(m, "5")
    ensures !Accepts(m, "") && !Accepts(m, "x5")
  {
    TranslateExamples();
    UnionLangs("a");
    UnionLangs("d");
    UnionLangs("");
    UnionLangs("ad");
  }

  /** A trailing 'U' changes nothing: "aU" denotes what "a" does. */
  lemma TrailingBar(w: seq<char>, keepRest: bool)
    ensures Crashes("aU", keepRest) == Crashes("a", keepRest)
    ensures Lang("aU", w, keepRest) == Lang("a", w, keepRest)
  {
    SplitTrailing();
    UnionOfOne("aU", "a", w, keepRest);
  }

  /** A null segment after the first is skipped: "aUx" is "a". */
  lemma NullSegmentSkipped(w: seq<char>)
    ensures !Crashes("aUx", false) && !NullExp("aUx")
    ensures Lang("aUx", w, false) <==> w == "a"
  {
    SplitTwo();
    LangSymbol('a', false);
    NullDenotesNothing("x", w, false);
    UnionOfTwo("aUx", "a", "x", w, false);
  }

  /** A text starting with 'U' throws: its split is empty or starts with
      the empty, null, segment. */
  lemma LeadingBarCrashes(rest: string, keepRest: bool)
    ensures Crashes([Bar] + rest, keepRest)
  {
  }

  // ------------------------------------------------------------ groups

  /** A text starting with an empty group throws: the star of null. */
  lemma EmptyGroupCrashes(rest: string, keepRest: bool)
    requires Bar !in rest
    ensures Crashes("()" + rest, keepRest)
  {
  }

  /** Some letters then one digit. */
  predicate LettersThenDigit(w: seq<char>) {
    |w| > 0 && w[|w| - 1] == 'd' && AllAre(w[..|w| - 1], 'a')
  }

  /** "(a)*d" denotes any number of letters then one digit. */
  lemma GroupLangs(w: seq<char>)
    ensures !NullExp("(a)*d") && !Crashes("(a)*d", false)
    ensures Lang("(a)*d", w, false) <==> LettersThenDigit(w)
  {
    var exp := "(a)*d";
    assert FindClose(exp, 1) == 2;
    assert exp[1..2] == "a" && exp[4..] == "d";
    GroupCrashes(exp, false);
    LangSymbol('a', false);
    LangSymbol('d', false);
    GroupLang(exp, w, false);
    ConcatEndsWith(Group("a", false), LangOf("d", false), 'd', w);
    if |w| > 0 {
      StarOfSymbol(LangOf("a", false), 'a', w[..|w| - 1]);
    }
  }

  /** A machine for letters then one digit, on some inputs. */
  lemma LettersThenDigitExamples(m: NFA)
    requires forall w :: AcceptsWord(m, w) == LettersThenDigit(w)
    ensures Accepts(m, "5") && Accepts(m, "aaa5") && Accepts(m, "xyz5")
    ensures !Accepts(m, "5a") && !Accepts(m, "x5y") && !Accepts(m, "x") && !Accepts(m, "")
  {
    assert LettersThenDigit("d") && !LettersThenDigit("a") && !LettersThenDigit("");
    assert LettersThenDigit("aaad") by {
      assert "aaad"[..3] == "aaa";
    }
    assert Translate("aaa5") == "aaad";
    assert Translate("xyz5") == "aaad";
    assert Translate("5a") == "da";
    assert Translate("x5y") == "ada";
    assert Translate("5") == "d";
    assert Translate("x") == "a";
    assert Translate("") == "";
  }

  /** "(a)*d" accepts "5", "aaa5" and "xyz5", not "5a", "x5y", "x" or the
      empty input. */
  lemma GroupExamples(m: NFA)
    requires Means(m, "(a)*d", false)
    ensures Accepts(m, "5") && Accepts(m, "aaa5") && Accepts(m, "xyz5")
    ensures !Accepts(m, "5a") && !Accepts(m, "x5y") && !Accepts(m, "x") && !Accepts(m, "")
  {
    forall w ensures AcceptsWord(m, w) == LettersThenDigit(w) {
      GroupLangs(w);
    }
    LettersThenDigitExamples(m);
  }

  // ------------------------------------------------------------ c* and the rest

  /** As written, `c*` denotes every repetition of `c` whatever follows it,
      and nothing after the `*` can make the compilation throw: the text
      after the `*` is never compiled (src/Main.java:107-109). */
  lemma StarIgnoresRest(c: char, rest: string, w: seq<char>)
    requires c == 'a' || c == 'd'
    requires Bar !in rest
    ensures !NullExp([c, '*'] + rest) && !Crashes([c, '*'] + rest, false)
    ensures Lang([c, '*'] + rest, w, false) <==> AllAre(w, c)
  {
  }

  /** A machine for any number of letters, on some inputs. */
  lemma LettersExamples(m: NFA)
    requires forall w :: AcceptsWord(m, w) == AllAre(w, 'a')
    ensures Accepts(m, "") && Accepts(m, "x") && Accepts(m, "xyz") && !Accepts(m, "1")
  {
    assert Translate("") == "";
    assert Translate("x") == "a";
    assert Translate("xyz") == "aaa";
    assert Translate("1") == "d";
    assert "d"[0] == 'd';
  }

  /** "a*" accepts any number of letters, none included, and rejects a
      digit. */
  lemma StarExamples(m: NFA)
    requires Means(m, "a*", false)
    ensures Accepts(m, "") && Accepts(m, "x") && Accepts(m, "xyz") && !Accepts(m, "1")
  {
    assert ['a', '*'] + "" == "a*";
    forall w ensures AcceptsWord(m, w) == AllAre(w, 'a') {
      StarIgnoresRest('a', "", w);
    }
    LettersExamples(m);
  }

  /** As written, "a*d" accepts letters with no digit after them, the same
      inputs as "a*", and rejects a letter followed by a digit. */
  lemma StarDropsDigit(m: NFA)
    requires Means(m, "a*d", false)
    ensures Accepts(m, "") && Accepts(m, "x") && !Accepts(m, "x5")
  {
    assert ['a', '*'] + "d" == "a*d";
    StarIgnoresRest('a', "d", []);
    StarIgnoresRest('a', "d", "a");
    StarIgnoresRest('a', "d", "ad");
    TranslateExamples();
    assert "ad"[1] == 'd';
  }

  /** With the rest kept, as the comment at src/Main.java:94-96 describes,
      `c*` denotes every repetition of `c` followed by a word of the rest,
      and throws exactly when the rest does. */
  lemma StarKeepsRest(c: char, rest: string, w: seq<char>)
    requires c == 'a' || c == 'd'
    requires Bar !in rest && !NullExp(rest)
    ensures Crashes([c, '*'] + rest, true) <==> Crashes(rest, true)
    ensures Lang([c, '*'] + rest, w, true) <==> ConcatOf(Rep(c), LangOf(rest, true), w)
  {
  }

  /** With the rest kept, "a*d" denotes letters then one digit, what
      "(a)*d" denotes. */
  lemma StarThenDigit(w: seq<char>)
    ensures !NullExp("a*d") && !Crashes("a*d", true)
    ensures Lang("a*d", w, true) <==> LettersThenDigit(w)
  {
  }

  /** With the rest kept, "a*d" needs the final digit. */
  lemma StarKeepsDigit(m: NFA)
    requires Means(m, "a*d", true)
    ensures Accepts(m, "5") && Accepts(m, "aaa5")
    ensures !Accepts(m, "5a") && !Accepts(m, "x") && !Accepts(m, "")
  {
    forall w ensures AcceptsWord(m, w) == LettersThenDigit(w) {
      StarThenDigit(w);
    }
    LettersThenDigitExamples(m);
  }
}
