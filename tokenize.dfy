/**
 Script-aware tokenizer of WanaKana (src/tokenize.js).

 `GetType` classifies a text into one token category by an ordered, first-match-wins cascade;
 `Tokenize` splits an input into maximal runs of characters of one category, optionally pairing
 every run with its category.

 The character tests that src/tokenize.js imports (English and Japanese punctuation, Romaji,
 Kanji, Hiragana, Katakana, Japanese) are not part of this model: they are the fields of a
 `CharTests` value, so every property proved here holds whatever those tests answer.
 */
module Tokenize {

  datatype Option<T> = None | Some(value: T)

  /** The token categories of the full mode; the compact mode uses only En, Ja and Other. */
  datatype Category =
    | En | Ja | EnNum | JaNum | EnPunc | JaPunc
    | Kanji | Hiragana | Katakana | Space | Other

  /** The imported character tests, applied (as in JavaScript) to a string. */
  datatype CharTests = CharTests(
    isEnglishPunctuation: string -> bool,
    isJapanesePunctuation: string -> bool,
    isRomaji: string -> bool,
    isKanji: string -> bool,
    isHiragana: string -> bool,
    isKatakana: string -> bool,
    isJapanese: string -> bool)

  /** A run found by `Tokenize`, paired with its category (detailed output). */
  datatype Token = Token(category: Category, value: string)

  /** What `Tokenize` returns: plain runs, or runs paired with their categories. */
  datatype Output = Plain(values: seq<string>) | Detailed(tokens: seq<Token>)

  // ---------------------------------------------------------------------------------------------
  // The local tests (src/tokenize.js:11-14)
  // ---------------------------------------------------------------------------------------------

  const IdeographicSpace: char := '\U{3000}'
  const FullWidthZero: char := '\U{FF10}'
  const FullWidthNine: char := '\U{FF19}'

  predicate IsEnSpace(x: string) { x == [' '] }

  predicate IsJaSpace(x: string) { x == [IdeographicSpace] }

  /** The regular expression `[lo-hi]` finds a match somewhere in `x`. */
  predicate MatchesRange(x: string, lo: char, hi: char)
  {
    |x| > 0 && (lo <= x[0] <= hi || MatchesRange(x[1..], lo, hi))
  }

  lemma MatchesRangeOne(c: char, lo: char, hi: char)
    ensures MatchesRange([c], lo, hi) <==> lo <= c <= hi
  {
    assert [c][1..] == [];
  }

  predicate IsJaNum(x: string) { MatchesRange(x, FullWidthZero, FullWidthNine) }

  predicate IsEnNum(x: string) { MatchesRange(x, '0', '9') }

  lemma {:induction false} MatchesRangeExactly(x: string, lo: char, hi: char)
    ensures MatchesRange(x, lo, hi) <==> exists k :: 0 <= k < |x| && lo <= x[k] <= hi
    decreases |x|
  {
    if |x| > 0 {
      MatchesRangeExactly(x[1..], lo, hi);
      if MatchesRange(x[1..], lo, hi) {
        var k :| 0 <= k < |x[1..]| && lo <= x[1..][k] <= hi;
        assert x[k + 1] == x[1..][k];
      }
      if exists k :: 0 <= k < |x| && lo <= x[k] <= hi {
        var k :| 0 <= k < |x| && lo <= x[k] <= hi;
        if k > 0 {
          assert x[1..][k - 1] == x[k];
        }
      }
    }
  }

  // ---------------------------------------------------------------------------------------------
  // The classifier (src/tokenize.js:17-50)
  // ---------------------------------------------------------------------------------------------

  /** Category of the text `x`: the first test of the mode's cascade that accepts `x` decides. */
  function GetType(t: CharTests, compact: bool, x: string): (r: Category)
    ensures compact ==> r == En || r == Ja || r == Other
  {
    if compact then
      if IsJaNum(x) then Other
      else if IsEnNum(x) then Other
      else if IsEnSpace(x) then En
      else if t.isEnglishPunctuation(x) then Other
      else if IsJaSpace(x) then Ja
      else if t.isJapanesePunctuation(x) then Other
      else if t.isJapanese(x) then Ja
      else if t.isRomaji(x) then En
      else Other
    else
      if IsJaSpace(x) then Space
      else if IsEnSpace(x) then Space
      else if IsJaNum(x) then JaNum
      else if IsEnNum(x) then EnNum
      else if t.isEnglishPunctuation(x) then EnPunc
      else if t.isJapanesePunctuation(x) then JaPunc
      else if t.isKanji(x) then Kanji
      else if t.isHiragana(x) then Hiragana
      else if t.isKatakana(x) then Katakana
      else if t.isJapanese(x) then Ja
      else if t.isRomaji(x) then En
      else Other
  }

  /** Category of one character, as `tokenize` asks for it while scanning. */
  function CharType(t: CharTests, compact: bool, c: char): Category
  {
    GetType(t, compact, [c])
  }

  /** The classifier that `tokenize` applies to every character in the given mode. */
  function Classifier(t: CharTests, compact: bool): char -> Category
  {
    c => CharType(t, compact, c)
  }

  /** Both spaces are Space in full mode; in compact mode ' ' is En whatever the imported tests
      say, and the ideographic space is Ja unless English punctuation, tested first, claims it. */
  lemma SpaceCategories(t: CharTests)
    ensures CharType(t, false, ' ') == Space
    ensures CharType(t, false, IdeographicSpace) == Space
    ensures CharType(t, true, ' ') == En
    ensures CharType(t, true, IdeographicSpace) ==
              if t.isEnglishPunctuation([IdeographicSpace]) then Other else Ja
  {
    SpacesAreNotDigits(' ');
    SpacesAreNotDigits(IdeographicSpace);
  }

  lemma SpacesAreNotDigits(c: char)
    requires c == ' ' || c == IdeographicSpace
    ensures !IsJaNum([c]) && !IsEnNum([c])
  {
    MatchesRangeOne(c, FullWidthZero, FullWidthNine);
    MatchesRangeOne(c, '0', '9');
  }

  /** A text in which the full-width digit pattern matches anywhere is JaNum in full mode and
      Other in compact mode: no punctuation, script or space test is reached. */
  lemma JaNumCategory(t: CharTests, x: string, k: int)
    requires 0 <= k < |x| && FullWidthZero <= x[k] <= FullWidthNine
    ensures GetType(t, false, x) == JaNum
    ensures GetType(t, true, x) == Other
  {
    MatchesRangeExactly(x, FullWidthZero, FullWidthNine);
  }

  /** A text in which the half-width digit pattern matches anywhere and no full-width digit
      occurs is EnNum in full mode; in compact mode every such text is Other. */
  lemma EnNumCategory(t: CharTests, x: string, k: int)
    requires 0 <= k < |x| && '0' <= x[k] <= '9'
    ensures !IsJaNum(x) ==> GetType(t, false, x) == EnNum
    ensures GetType(t, true, x) == Other
  {
    MatchesRangeExactly(x, '0', '9');
  }

  /** For a single character, the two digit classes are decided by the character's code point. */
  lemma DigitCharCategories(t: CharTests, c: char)
    ensures FullWidthZero <= c <= FullWidthNine ==>
              CharType(t, false, c) == JaNum && CharType(t, true, c) == Other
    ensures '0' <= c <= '9' ==>
              CharType(t, false, c) == EnNum && CharType(t, true, c) == Other
  {
    if FullWidthZero <= c <= FullWidthNine {
      JaNumCategory(t, [c], 0);
    }
    if '0' <= c <= '9' {
      EnNumCategory(t, [c], 0);
      MatchesRangeOne(c, FullWidthZero, FullWidthNine);
    }
  }

  /** How the compact category of a text follows from its full category: compact mode coarsens
      the full mode, except that spaces join a script and kana or Kanji need the Japanese test. */
  lemma CompactCoarsensFull(t: CharTests, x: string)
    ensures GetType(t, false, x) in {EnNum, JaNum, EnPunc, JaPunc, Other} ==>
              GetType(t, true, x) == Other
    ensures GetType(t, false, x) == Space ==>
              GetType(t, true, x) ==
                if IsEnSpace(x) then En else if t.isEnglishPunctuation(x) then Other else Ja
    ensures GetType(t, false, x) == Ja ==> GetType(t, true, x) == Ja
    ensures GetType(t, false, x) == En ==> GetType(t, true, x) == En
    ensures GetType(t, false, x) in {Kanji, Hiragana, Katakana} ==>
              GetType(t, true, x) ==
                if t.isJapanese(x) then Ja else if t.isRomaji(x) then En else Other
  {
    if IsEnSpace(x) || IsJaSpace(x) {
      SpacesAreNotDigits(x[0]);
    }
  }

  // ---------------------------------------------------------------------------------------------
  // Runs (src/tokenize.js:80-96)
  // ---------------------------------------------------------------------------------------------

  /** The characters of the runs, in order. */
  function Concat(runs: seq<string>): string
  {
    if |runs| == 0 then [] else Concat(runs[..|runs| - 1]) + runs[|runs| - 1]
  }

  /** Category shared by the characters of a run: that of its first character. */
  function RunType(cat: char -> Category, run: string): Category
    requires |run| > 0
  {
    cat(run[0])
  }

  predicate Uniform(cat: char -> Category, run: string)
  {
    forall k :: 0 <= k < |run| ==> cat(run[k]) == cat(run[0])
  }

  /** `runs` splits `s` into non-empty runs of one category each, neighbours of different
      categories: the decomposition `tokenize` promises. */
  predicate IsMaximalRuns(cat: char -> Category, runs: seq<string>, s: string)
  {
    && Concat(runs) == s
    && (forall i :: 0 <= i < |runs| ==> |runs[i]| > 0 && Uniform(cat, runs[i]))
    && (forall i :: 0 <= i < |runs| - 1 ==>
          RunType(cat, runs[i]) != RunType(cat, runs[i + 1]))
  }

  /** The runs of `s`, as the fold of src/tokenize.js:84-96 builds them: each character after the
      first either extends the last run (same category as the character before it) or starts a
      new one. */
  function Runs(cat: char -> Category, s: string): (r: seq<string>)
    ensures |r| <= |s|
    ensures |r| == 0 <==> |s| == 0
    ensures forall i :: 0 <= i < |r| ==> |r[i]| > 0
    decreases |s|
  {
    if |s| <= 1 then
      if |s| == 0 then [] else [s]
    else
      var prev := Runs(cat, s[..|s| - 1]);
      var c := s[|s| - 1];
      if cat(s[|s| - 2]) == cat(c) then
        prev[..|prev| - 1] + [prev[|prev| - 1] + [c]]
      else
        prev + [[c]]
  }

  /** One step of the fold: the runs of `s + [c]` from the runs of `s`. */
  lemma RunsStep(cat: char -> Category, s: string, c: char)
    requires |s| > 0
    ensures var prev := Runs(cat, s);
      Runs(cat, s + [c]) ==
        if cat(s[|s| - 1]) == cat(c) then prev[..|prev| - 1] + [prev[|prev| - 1] + [c]]
        else prev + [[c]]
  {
    assert (s + [c])[..|s|] == s;
  }

  lemma ConcatLast(runs: seq<string>)
    requires |runs| > 0 && |runs[|runs| - 1]| > 0
    ensures |Concat(runs)| > 0
    ensures Concat(runs)[|Concat(runs)| - 1] == runs[|runs| - 1][|runs[|runs| - 1]| - 1]
  {
  }

  /** Starting a new run with `c` keeps a maximal decomposition maximal, when `c`'s category
      differs from that of the last character. */
  lemma StartRunMaximal(cat: char -> Category, prev: seq<string>, s: string, c: char)
    requires |prev| > 0 && IsMaximalRuns(cat, prev, s)
    requires cat(s[|s| - 1]) != cat(c)
    ensures IsMaximalRuns(cat, prev + [[c]], s + [c])
  {
    var r, n := prev + [[c]], |prev|;
    ConcatLast(prev);
    assert r[..n] == prev;
    assert Uniform(cat, prev[n - 1]);
    forall i | 0 <= i < |r| - 1
      ensures RunType(cat, r[i]) != RunType(cat, r[i + 1])
    {
      assert r[i] == prev[i];
      if i + 1 < n {
        assert r[i + 1] == prev[i + 1];
      }
    }
  }

  /** Appending `c` to the last run keeps a maximal decomposition maximal, when `c`'s category
      equals that of the last character. */
  lemma ExtendRunMaximal(cat: char -> Category, prev: seq<string>, s: string, c: char)
    requires |prev| > 0 && IsMaximalRuns(cat, prev, s)
    requires cat(s[|s| - 1]) == cat(c)
    ensures IsMaximalRuns(cat, prev[..|prev| - 1] + [prev[|prev| - 1] + [c]], s + [c])
  {
    var n := |prev|;
    var last := prev[n - 1];
    var last' := last + [c];
    var r := prev[..n - 1] + [last'];
    ConcatLast(prev);
    assert r[..n - 1] == prev[..n - 1];
    assert prev[..n - 1] + [last] == prev;
    assert Concat(r) == Concat(prev[..n - 1]) + last';
    assert Uniform(cat, last);
    assert Uniform(cat, last') by {
      forall k | 0 <= k < |last'|
        ensures cat(last'[k]) == cat(last'[0])
      {
        if k < |last| {
          assert last'[k] == last[k];
        }
      }
    }
    forall i | 0 <= i < |r| - 1
      ensures RunType(cat, r[i]) != RunType(cat, r[i + 1])
    {
      assert r[i] == prev[i];
      assert r[i + 1][0] == prev[i + 1][0];
    }
  }

  /** The runs of `s` are its maximal-run decomposition. */
  lemma {:induction false} RunsAreMaximal(cat: char -> Category, s: string)
    ensures IsMaximalRuns(cat, Runs(cat, s), s)
    decreases |s|
  {
    if |s| == 1 {
      assert Concat([s]) == Concat([]) + s;
    } else if |s| > 1 {
      var s' := s[..|s| - 1];
      assert s' + [s[|s| - 1]] == s;
      assert s'[|s'| - 1] == s[|s| - 2];
      RunsAreMaximal(cat, s');
      if cat(s[|s| - 2]) == cat(s[|s| - 1]) {
        ExtendRunMaximal(cat, Runs(cat, s'), s', s[|s| - 1]);
      } else {
        StartRunMaximal(cat, Runs(cat, s'), s', s[|s| - 1]);
      }
    }
  }

  /** A prefix of a maximal-run decomposition decomposes a prefix of the text. */
  lemma DropLastRun(cat: char -> Category, runs: seq<string>, s: string)
    requires |runs| > 0 && IsMaximalRuns(cat, runs, s)
    ensures |runs[|runs| - 1]| <= |s|
    ensures IsMaximalRuns(cat, runs[..|runs| - 1], s[..|s| - |runs[|runs| - 1]|])
    ensures s == s[..|s| - |runs[|runs| - 1]|] + runs[|runs| - 1]
  {
    var init := runs[..|runs| - 1];
    assert s == Concat(init) + runs[|runs| - 1];
    assert s[..|s| - |runs[|runs| - 1]|] == Concat(init);
    forall i | 0 <= i < |init| - 1
      ensures RunType(cat, init[i]) != RunType(cat, init[i + 1])
    {
      assert init[i] == runs[i] && init[i + 1] == runs[i + 1];
    }
  }

  /** The maximal-run decomposition of a text is unique: `tokenize` has only one correct answer. */
  lemma {:induction false} MaximalRunsUnique(cat: char -> Category, a: seq<string>,
                                             b: seq<string>, s: string)
    requires IsMaximalRuns(cat, a, s) && IsMaximalRuns(cat, b, s)
    ensures a == b
    decreases |s|
  {
    if |a| == 0 || |b| == 0 {
      if |a| > 0 {
        DropLastRun(cat, a, s);
      } else if |b| > 0 {
        DropLastRun(cat, b, s);
      }
    } else {
      var x, y := a[|a| - 1], b[|b| - 1];
      DropLastRun(cat, a, s);
      DropLastRun(cat, b, s);
      if |x| != |y| {
        LastRunsAgree(cat, a, b, s);
        LastRunsAgree(cat, b, a, s);
      }
      assert x == s[|s| - |x|..] == y;
      MaximalRunsUnique(cat, a[..|a| - 1], b[..|b| - 1], s[..|s| - |x|]);
      assert a == a[..|a| - 1] + [x];
      assert b == b[..|b| - 1] + [y];
    }
  }

  /** The last run of a maximal decomposition is never shorter than that of another one: the
      character before it has a different category, so it cannot lie inside the other's last run. */
  lemma LastRunsAgree(cat: char -> Category, a: seq<string>, b: seq<string>, s: string)
    requires IsMaximalRuns(cat, a, s) && IsMaximalRuns(cat, b, s)
    requires |a| > 0 && |b| > 0
    ensures |a[|a| - 1]| >= |b[|b| - 1]|
  {
    var x, y := a[|a| - 1], b[|b| - 1];
    DropLastRun(cat, a, s);
    DropLastRun(cat, b, s);
    if |x| < |y| {
      ConcatLast(a[..|a| - 1]);
      assert false;
    }
  }

  /** An input whose characters all share one category is a single run; in particular a single
      character gives exactly one run. */
  lemma UniformInputIsOneRun(cat: char -> Category, s: string)
    requires |s| > 0 && Uniform(cat, s)
    ensures Runs(cat, s) == [s]
  {
    assert Concat([s]) == Concat([]) + s;
    assert IsMaximalRuns(cat, [s], s);
    RunsAreMaximal(cat, s);
    MaximalRunsUnique(cat, Runs(cat, s), [s], s);
  }

  // ---------------------------------------------------------------------------------------------
  // Detailed output (src/tokenize.js:98-100)
  // ---------------------------------------------------------------------------------------------

  /** The run texts of a detailed output. */
  function Values(tokens: seq<Token>): (r: seq<string>)
    ensures |r| == |tokens|
  {
    seq(|tokens|, i requires 0 <= i < |tokens| => tokens[i].value)
  }

  /** Detailed output: every run paired with the category of its first character (line 99 asks
      `getType` about the whole run text instead; see `DetailAsWritten`). */
  function Detail(cat: char -> Category, runs: seq<string>): (r: seq<Token>)
    requires forall i :: 0 <= i < |runs| ==> |runs[i]| > 0
    ensures Values(r) == runs
    ensures forall i :: 0 <= i < |r| ==> r[i].category == RunType(cat, runs[i])
  {
    seq(|runs|, i requires 0 <= i < |runs| => Token(RunType(cat, runs[i]), runs[i]))
  }

  /** The detailed output of a text: its values reproduce the text, every character of a token
      has the token's category, and neighbouring tokens have different categories. */
  lemma DetailedTokensAreMaximal(cat: char -> Category, s: string)
    ensures var ts := Detail(cat, Runs(cat, s));
      && Concat(Values(ts)) == s
      && (forall i, k :: 0 <= i < |ts| && 0 <= k < |ts[i].value| ==>
            cat(ts[i].value[k]) == ts[i].category)
      && (forall i :: 0 <= i < |ts| - 1 ==> ts[i].category != ts[i + 1].category)
  {
    var runs := Runs(cat, s);
    RunsAreMaximal(cat, s);
    var ts := Detail(cat, runs);
    forall i, k | 0 <= i < |ts| && 0 <= k < |ts[i].value|
      ensures cat(ts[i].value[k]) == ts[i].category
    {
      assert ts[i].value == Values(ts)[i] == runs[i];
      assert Uniform(cat, runs[i]);
    }
  }

  /** Line 99 as written: the category is asked of the whole run text. */
  function DetailAsWritten(t: CharTests, compact: bool, runs: seq<string>): (r: seq<Token>)
    ensures Values(r) == runs
    ensures forall i :: 0 <= i < |r| ==> r[i].category == GetType(t, compact, runs[i])
  {
    seq(|runs|, i requires 0 <= i < |runs| => Token(GetType(t, compact, runs[i]), runs[i]))
  }

  /** Where every run is one character long, line 99 as written and `Detail` agree. */
  lemma DetailAsWrittenOnSingleCharacters(t: CharTests, compact: bool, runs: seq<string>)
    requires forall i :: 0 <= i < |runs| ==> |runs[i]| == 1
    ensures DetailAsWritten(t, compact, runs) == Detail(Classifier(t, compact), runs)
  {
    var a, d := DetailAsWritten(t, compact, runs), Detail(Classifier(t, compact), runs);
    forall i | 0 <= i < |runs| ensures a[i] == d[i] {
      assert runs[i] == [runs[i][0]];
      assert a[i].value == Values(a)[i] && d[i].value == Values(d)[i];
    }
  }

  /** Two ASCII spaces form one run, of category Space, in full mode. */
  lemma TwoSpacesRun(t: CharTests)
    ensures Runs(Classifier(t, false), "  ") == ["  "]
    ensures RunType(Classifier(t, false), "  ") == Space
  {
    var cat, x := Classifier(t, false), "  ";
    SpaceCategories(t);
    assert x[0] == ' ' && x[1] == ' ';
    assert Uniform(cat, x);
    UniformInputIsOneRun(cat, x);
  }

  /** In full mode, `getType` gives Space only to a one-character text: only the exact
      equality tests of lines 36-37 return Space. */
  lemma SpaceOnlyForOneCharacter(t: CharTests, x: string)
    requires |x| != 1
    ensures GetType(t, false, x) != Space
  {
  }

  /** The Space run of two ASCII spaces (see `TwoSpacesRun`) is labelled Space by `Detail`, yet
      line 99 as written never labels it Space, whatever the imported tests answer. */
  lemma TwoSpacesAsWritten(t: CharTests)
    ensures Detail(Classifier(t, false), ["  "])[0].category == Space
    ensures DetailAsWritten(t, false, ["  "])[0].category != Space
  {
    TwoSpacesRun(t);
    SpaceOnlyForOneCharacter(t, "  ");
  }

  // ---------------------------------------------------------------------------------------------
  // tokenize (src/tokenize.js:76-102)
  // ---------------------------------------------------------------------------------------------

  /** Splits `input` into maximal runs of one category; with `detailed`, pairs every run with
      its category. An absent or empty input gives the empty sequence. */
  method Tokenize(t: CharTests, input: Option<string>, compact: bool, detailed: bool)
    returns (out: Output)
    ensures input.None? || |input.value| == 0 ==> out == Plain([])
    ensures input.Some? && |input.value| > 0 ==>
              var runs := Runs(Classifier(t, compact), input.value);
              out == if detailed then Detailed(Detail(Classifier(t, compact), runs)) else Plain(runs)
  {
    if input.None? || |input.value| == 0 {
      return Plain([]);
    }
    var chars := input.value;
    var cat := Classifier(t, compact);
    var done: seq<string> := [];
    var run: string := [chars[0]];
    assert chars[..1] == run;
    var prevType := cat(chars[0]);
    var i := 1;
    while i < |chars|
      invariant 1 <= i <= |chars|
      invariant done + [run] == Runs(cat, chars[..i])
      invariant prevType == cat(chars[i - 1])
    {
      var c := chars[i];
      var currType := cat(c);
      assert chars[..i + 1] == chars[..i] + [c];
      RunsStep(cat, chars[..i], c);
      if currType == prevType {
        run := run + [c];
      } else {
        done := done + [run];
        run := [c];
      }
      prevType := currType;
      i := i + 1;
    }
    assert chars[..i] == chars;
    var runs := done + [run];
    if detailed {
      out := Detailed(Detail(cat, runs));
    } else {
      out := Plain(runs);
    }
  }
}
