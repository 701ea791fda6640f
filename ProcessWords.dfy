/** The morphological split of process_words.py: every five-letter word is
    a valid guess, and the guesses that do not look plural or conjugated are
    also target words. */
module ProcessWords {
  import opened Text
  import opened Sorting

  /** is_likely_proper_noun: a stub that flags no word. */
  function IsLikelyProperNoun(word: string): (r: bool)
    ensures !r
  {
    false
  }

  /** Singular words ending in 's' that the plural test lets through. */
  const S_EXCEPTIONS: seq<string> :=
    ["temps", "corps", "repas", "moisc", "cours", "souris", "velours", "tapis", "puits", "chaos", "os", "as", "buis"]

  /** Words ending in "ez" that the plural test lets through. */
  const EZ_EXCEPTIONS: seq<string> := ["assez"]

  /** is_likely_plural_or_conjugated: an 's' ending outside S_EXCEPTIONS,
      or an "ez" ending outside EZ_EXCEPTIONS. */
  predicate IsLikelyPluralOrConjugated(word: string): (r: bool)
    ensures r ==> |word| > 0 && (word[|word| - 1] == 's' || word[|word| - 1] == 'z')
  {
    if EndsWith(word, "s") && word !in S_EXCEPTIONS then true
    else if EndsWith(word, "ez") && word !in EZ_EXCEPTIONS then true
    else false
  }

  /** A word ending in neither 's' nor "ez" is never flagged (so neither is
      one ending in 'z' after another letter, such as "quartz"); one ending
      in 's' is flagged exactly when it is not a listed exception, and one
      ending in "ez" exactly when it is not "assez". */
  lemma PluralBySuffix(word: string)
    ensures !EndsWith(word, "s") && !EndsWith(word, "ez") ==> !IsLikelyPluralOrConjugated(word)
    ensures word != [] && word[|word| - 1] == 's' ==> (IsLikelyPluralOrConjugated(word) <==> word !in S_EXCEPTIONS)
    ensures EndsWith(word, "ez") ==> (IsLikelyPluralOrConjugated(word) <==> word != "assez")
  {
    if word != [] && word[|word| - 1] != 's' {
      assert !EndsWith(word, "s");
    }
    if word != [] && word[|word| - 1] == 's' {
      assert EndsWith(word, "s");
    }
    if EndsWith(word, "ez") {
      assert word[|word| - 2..][1] == word[|word| - 1];
      assert !EndsWith(word, "s") by {
        assert word[|word| - 1..] == [word[|word| - 1]];
      }
    }
  }

  lemma PluralExamples()
    ensures IsLikelyPluralOrConjugated("pommes")
    ensures IsLikelyPluralOrConjugated("joues")
    ensures IsLikelyPluralOrConjugated("jouez")
  {
    PluralBySuffix("pommes");
    PluralBySuffix("joues");
    PluralBySuffix("jouez");
  }

  lemma SingularExamples()
    ensures !IsLikelyPluralOrConjugated("temps") && !IsLikelyPluralOrConjugated("corps")
    ensures !IsLikelyPluralOrConjugated("assez")
    ensures !IsLikelyPluralOrConjugated("livre") && !IsLikelyPluralOrConjugated("quartz")
  {
    PluralBySuffix("temps");
    PluralBySuffix("corps");
    PluralBySuffix("assez");
    PluralBySuffix("livre");
    PluralBySuffix("quartz");
  }

  /** A third-person plural verb such as "rient" is not flagged: the test has
      no rule for the "nt" ending. */
  lemma NtEndingNotFlagged()
    ensures !IsLikelyPluralOrConjugated("rient")
  {
    PluralBySuffix("rient");
  }

  /** Every listed exception is left unflagged; "moisc" does not end in 's',
      so its entry has no effect. */
  lemma ExceptionsNotFlagged()
    ensures forall e :: e in S_EXCEPTIONS ==> !IsLikelyPluralOrConjugated(e)
    ensures !EndsWith("moisc", "s")
  {
    forall e | e in S_EXCEPTIONS ensures !IsLikelyPluralOrConjugated(e) {
      PluralBySuffix(e);
    }
  }

  /** One line of the input as main keeps it: strip().lower(), or nothing
      when the stripped line is empty. */
  function CleanLine(line: string): seq<string> {
    if Strip(line) != [] then [Lower(Strip(line))] else []
  }

  /** The words list of main, in input order. */
  function CleanWords(lines: seq<string>): seq<string> {
    if lines == [] then [] else CleanLine(lines[0]) + CleanWords(lines[1..])
  }

  /** Cleaning keeps the order of the lines: the words of two blocks of lines
      are the words of the first followed by those of the second. */
  lemma {:induction false} CleanWordsConcat(a: seq<string>, b: seq<string>)
    ensures CleanWords(a + b) == CleanWords(a) + CleanWords(b)
    decreases |a|
  {
    if a == [] {
      assert a + b == b;
    } else {
      assert (a + b)[1..] == a[1..] + b;
      CleanWordsConcat(a[1..], b);
    }
  }

  /** lower() changes no character into white space or out of it. */
  lemma LowerKeepsEnds(s: string)
    requires s != [] && !IsSpace(s[0]) && !IsSpace(s[|s| - 1])
    ensures Lower(s) != [] && !IsSpace(Lower(s)[0]) && !IsSpace(Lower(s)[|s| - 1])
  {
  }

  /** A non-empty list is its first element followed by the rest. A proof
      aid that keeps CleanWordsMembers cheap to check; no source counterpart. */
  lemma HeadSplit(lines: seq<string>)
    requires lines != []
    ensures forall x :: x in lines <==> x == lines[0] || x in lines[1..]
  {
    assert lines == [lines[0]] + lines[1..];
  }

  /** A word of the list comes from a non-blank line, and every non-blank
      line gives one. */
  lemma {:induction false} CleanWordsMembers(lines: seq<string>)
    ensures forall w :: w in CleanWords(lines) <==> exists l :: l in lines && Strip(l) != [] && w == Lower(Strip(l))
    decreases |lines|
  {
    if lines != [] {
      CleanWordsMembers(lines[1..]);
      HeadSplit(lines);
    }
  }

  /** A word of the list is non-empty, lower case and has no white space at
      its ends. */
  lemma {:induction false} CleanWordsShape(lines: seq<string>)
    ensures forall w :: w in CleanWords(lines) ==> w != [] && Lower(w) == w && Strip(w) == w
    decreases |lines|
  {
    if lines != [] {
      CleanWordsShape(lines[1..]);
      var l := lines[0];
      if Strip(l) != [] {
        StripSpec(l);
        LowerKeepsEnds(Strip(l));
        LowerIdempotent(Strip(l));
        StripOfStripped(Lower(Strip(l)));
      }
    }
  }

  /** A cleaned list cleans to itself. */
  lemma {:induction false} CleanWordsIdempotent(lines: seq<string>)
    ensures CleanWords(CleanWords(lines)) == CleanWords(lines)
    decreases |lines|
  {
    if lines != [] {
      CleanWordsIdempotent(lines[1..]);
      var head := CleanLine(lines[0]);
      CleanWordsConcat(head, CleanWords(lines[1..]));
      if head != [] {
        CleanWordsShape([lines[0]]);
        var w := head[0];
        assert w in CleanWords([lines[0]]);
        assert head[1..] == [];
      }
    }
  }

  /** valid_guesses before deduplication: the five-letter words, in order. */
  function Guesses(words: seq<string>): seq<string> {
    if words == [] then []
    else Guesses(words[..|words| - 1]) + (if |words[|words| - 1]| == 5 then [words[|words| - 1]] else [])
  }

  /** target_words before deduplication: the guesses not flagged as plural
      or conjugated, in order. */
  function Targets(words: seq<string>): seq<string> {
    if words == [] then []
    else
      var w := words[|words| - 1];
      Targets(words[..|words| - 1]) + (if |w| == 5 && !IsLikelyPluralOrConjugated(w) then [w] else [])
  }

  /** A non-empty list is its front followed by its last element. A proof
      aid that keeps GuessesMembers and TargetsMembers cheap to check; no
      source counterpart. */
  lemma LastSplit(words: seq<string>)
    requires words != []
    ensures forall x :: x in words <==> x in words[..|words| - 1] || x == words[|words| - 1]
  {
    assert words == words[..|words| - 1] + [words[|words| - 1]];
  }

  lemma {:induction false} GuessesMembers(words: seq<string>)
    ensures forall w :: w in Guesses(words) <==> w in words && |w| == 5
    decreases |words|
  {
    if words != [] {
      var front := words[..|words| - 1];
      GuessesMembers(front);
      LastSplit(words);
    }
  }

  lemma {:induction false} TargetsMembers(words: seq<string>)
    ensures forall w :: w in Targets(words) <==> w in words && |w| == 5 && !IsLikelyPluralOrConjugated(w)
    ensures |Targets(words)| <= |Guesses(words)|
    decreases |words|
  {
    if words != [] {
      var front := words[..|words| - 1];
      TargetsMembers(front);
      LastSplit(words);
    }
  }

  /** The list-building and deduplication of main: returns the sorted,
      duplicate-free VALID_GUESSES and TARGET_WORDS for the given lines. */
  method BuildWordLists(lines: seq<string>) returns (validGuesses: seq<string>, targetWords: seq<string>)
    ensures StrictlyAscending(validGuesses) && StrictlyAscending(targetWords)
    ensures forall w :: w in validGuesses <==> w in Guesses(CleanWords(lines))
    ensures forall w :: w in targetWords <==> w in Targets(CleanWords(lines))
    ensures forall w :: w in validGuesses <==> w in CleanWords(lines) && |w| == 5
    ensures forall w :: w in targetWords <==> w in validGuesses && !IsLikelyPluralOrConjugated(w)
  {
    var words := CleanWords(lines);
    var guesses: seq<string> := [];
    var targets: seq<string> := [];
    var i := 0;
    while i < |words|
      invariant 0 <= i <= |words|
      invariant guesses == Guesses(words[..i])
      invariant targets == Targets(words[..i])
    {
      var word := words[i];
      assert words[..i + 1][..i] == words[..i];
      if |word| != 5 {
        i := i + 1;
        continue;
      }
      guesses := guesses + [word];
      if !IsLikelyPluralOrConjugated(word) {
        targets := targets + [word];
      }
      i := i + 1;
    }
    assert words[..i] == words;
    GuessesMembers(words);
    TargetsMembers(words);
    validGuesses := SortedSet(set w | w in guesses);
    targetWords := SortedSet(set w | w in targets);
  }
}
