/** The LibreOffice extractor (scripts/extract_from_libreoffice.py): reads the
    entries of a Hunspell .dic file, then keeps the words that are five
    letters long once their ligatures are expanded. */
module Extract {
  import opened Text
  import opened SetFacts

  /** The ligature table of _expand_ligatures, in the order it is applied. */
  const LIGATURES: seq<(char, string)> := [('œ', "oe"), ('æ', "ae"), ('ﬁ', "fi"), ('ﬂ', "fl")]

  /** Characters the five-letter filter admits besides those isalpha() admits. */
  const ACCENTED: string := "àâäéèêëïîôöœùûüæçñ"

  /** The position of c in the ligature table, or |LIGATURES| when c is no ligature. */
  function LigatureIndex(c: char): (i: nat)
    ensures i <= |LIGATURES|
    ensures i < |LIGATURES| ==> LIGATURES[i].0 == c
    ensures forall j :: 0 <= j < i ==> LIGATURES[j].0 != c
  {
    if c == LIGATURES[0].0 then 0
    else if c == LIGATURES[1].0 then 1
    else if c == LIGATURES[2].0 then 2
    else if c == LIGATURES[3].0 then 3
    else 4
  }

  predicate IsLigature(c: char) {
    LigatureIndex(c) < |LIGATURES|
  }

  /** s.replace(c, t) for a single character c. */
  function ReplaceChar(s: string, c: char, t: string): (r: string)
  {
    if s == [] then []
    else (if s[0] == c then t else [s[0]]) + ReplaceChar(s[1..], c, t)
  }

  lemma {:induction false} ReplaceCharConcat(a: string, b: string, c: char, t: string)
    ensures ReplaceChar(a + b, c, t) == ReplaceChar(a, c, t) + ReplaceChar(b, c, t)
    decreases |a|
  {
    if a != [] {
      assert (a + b)[0] == a[0] && (a + b)[1..] == a[1..] + b;
      ReplaceCharConcat(a[1..], b, c, t);
      var h := if a[0] == c then t else [a[0]];
      calc {
        ReplaceChar(a + b, c, t);
        h + ReplaceChar(a[1..] + b, c, t);
        h + (ReplaceChar(a[1..], c, t) + ReplaceChar(b, c, t));
        (h + ReplaceChar(a[1..], c, t)) + ReplaceChar(b, c, t);
      }
    } else {
      assert a + b == b;
    }
  }

  lemma {:induction false} ReplaceCharAbsent(s: string, c: char, t: string)
    requires c !in s
    ensures ReplaceChar(s, c, t) == s
    decreases |s|
  {
    if s != [] {
      ReplaceCharAbsent(s[1..], c, t);
    }
  }

  /** One character after the first k entries of the ligature table were applied. */
  function ExpandCharFirst(c: char, k: nat): (r: string)
    requires k <= |LIGATURES|
  {
    var i := LigatureIndex(c);
    if i < k then LIGATURES[i].1 else [c]
  }

  /** A string after the first k replacements of _expand_ligatures. */
  function ExpandFirst(s: string, k: nat): (r: string)
    requires k <= |LIGATURES|
  {
    if s == [] then [] else ExpandCharFirst(s[0], k) + ExpandFirst(s[1..], k)
  }

  /** What _expand_ligatures returns: every ligature replaced by its two letters. */
  function Expand(s: string): string {
    ExpandFirst(s, |LIGATURES|)
  }

  /** One more str.replace call turns the first k replacements into the first k + 1. */
  lemma {:induction false} ReplaceNextLigature(s: string, k: nat)
    requires k < |LIGATURES|
    ensures ReplaceChar(ExpandFirst(s, k), LIGATURES[k].0, LIGATURES[k].1) == ExpandFirst(s, k + 1)
    decreases |s|
  {
    if s != [] {
      var c, t := LIGATURES[k].0, LIGATURES[k].1;
      ReplaceCharConcat(ExpandCharFirst(s[0], k), ExpandFirst(s[1..], k), c, t);
      ReplaceNextLigature(s[1..], k);
      var i := LigatureIndex(s[0]);
      if i < k {
        ReplaceCharAbsent(LIGATURES[i].1, c, t);
      } else if i > k {
        ReplaceCharAbsent([s[0]], c, t);
      }
    }
  }

  /** _expand_ligatures: applies str.replace once per entry of the table. */
  method ExpandLigatures(word: string) returns (expanded: string)
    ensures expanded == Expand(word)
  {
    expanded := word;
    var k := 0;
    assert ExpandFirst(word, 0) == word by { ExpandNone(word); }
    while k < |LIGATURES|
      invariant 0 <= k <= |LIGATURES|
      invariant expanded == ExpandFirst(word, k)
    {
      ReplaceNextLigature(word, k);
      expanded := ReplaceChar(expanded, LIGATURES[k].0, LIGATURES[k].1);
      k := k + 1;
    }
  }

  lemma {:induction false} ExpandNone(s: string)
    ensures ExpandFirst(s, 0) == s
    decreases |s|
  {
    if s != [] {
      ExpandNone(s[1..]);
      assert s == [s[0]] + s[1..];
    }
  }

  /** Expansion works character by character: other characters keep their order. */
  lemma {:induction false} ExpandConcat(a: string, b: string)
    ensures Expand(a + b) == Expand(a) + Expand(b)
    decreases |a|
  {
    if a != [] {
      assert (a + b)[0] == a[0] && (a + b)[1..] == a[1..] + b;
      ExpandConcat(a[1..], b);
      var h := ExpandCharFirst(a[0], |LIGATURES|);
      calc {
        Expand(a + b);
        h + Expand(a[1..] + b);
        h + (Expand(a[1..]) + Expand(b));
        (h + Expand(a[1..])) + Expand(b);
        Expand(a) + Expand(b);
      }
    } else {
      assert a + b == b;
    }
  }

  lemma ExpandOneChar(c: char)
    ensures Expand([c]) == if IsLigature(c) then LIGATURES[LigatureIndex(c)].1 else [c]
  {
    assert [c][1..] == [];
    assert Expand([c]) == ExpandCharFirst(c, |LIGATURES|) + Expand([]);
  }

  /** The two letters a ligature expands to are no ligatures themselves. */
  lemma ExpansionsArePlain(c: char)
    ensures forall i :: 0 <= i < |ExpandCharFirst(c, |LIGATURES|)| ==> !IsLigature(ExpandCharFirst(c, |LIGATURES|)[i])
  {
    var h := ExpandCharFirst(c, |LIGATURES|);
    if IsLigature(c) {
      assert !IsLigature(h[0]) && !IsLigature(h[1]);
    }
  }

  /** The result holds no ligature. */
  lemma {:induction false} ExpandHasNoLigature(s: string)
    ensures forall i :: 0 <= i < |Expand(s)| ==> !IsLigature(Expand(s)[i])
    decreases |s|
  {
    if s != [] {
      ExpandHasNoLigature(s[1..]);
      var h := ExpandCharFirst(s[0], |LIGATURES|);
      ExpansionsArePlain(s[0]);
      assert Expand(s) == h + Expand(s[1..]);
      forall i | 0 <= i < |Expand(s)| ensures !IsLigature(Expand(s)[i]) {
        if i >= |h| {
          assert Expand(s)[i] == Expand(s[1..])[i - |h|];
        } else {
          assert Expand(s)[i] == h[i];
        }
      }
    }
  }

  /** Words without ligatures come back unchanged. */
  lemma {:induction false} ExpandWithoutLigatures(s: string)
    requires forall i :: 0 <= i < |s| ==> !IsLigature(s[i])
    ensures Expand(s) == s
    decreases |s|
  {
    if s != [] {
      ExpandWithoutLigatures(s[1..]);
      assert s == [s[0]] + s[1..];
    }
  }

  lemma ExpandIdempotent(s: string)
    ensures Expand(Expand(s)) == Expand(s)
  {
    ExpandHasNoLigature(s);
    ExpandWithoutLigatures(Expand(s));
  }

  function CountLigatures(s: string): nat {
    if s == [] then 0 else (if IsLigature(s[0]) then 1 else 0) + CountLigatures(s[1..])
  }

  /** Each ligature adds exactly one character. */
  lemma {:induction false} ExpandLength(s: string)
    ensures |Expand(s)| == |s| + CountLigatures(s)
    decreases |s|
  {
    if s != [] {
      ExpandLength(s[1..]);
    }
  }

  /** The word a .dic line contributes: line.strip().split('/')[0].lower(). */
  function DicWord(line: string): (r: string)
    ensures '/' !in r
    ensures forall i :: 0 <= i < |r| ==> !IsUpper(r[i])
    ensures r != [] ==> !IsSpace(r[0])
    ensures |r| <= |line|
  {
    var stem := BeforeSlash(Strip(line));
    StripSpec(line);
    LowerIdempotent(stem);
    Lower(stem)
  }

  /** int(lines[0].strip()) succeeds, or the file is empty. */
  predicate CountLineParses(lines: seq<string>) {
    lines == [] || IsIntLiteral(Strip(lines[0]))
  }

  /** The lines after the leading count line. */
  function Entries(lines: seq<string>): seq<string> {
    if lines == [] then [] else lines[1..]
  }

  /** The distinct non-empty words of a run of entry lines. */
  function DicWords(entries: seq<string>): set<string>
  {
    set l | l in entries && DicWord(l) != [] :: DicWord(l)
  }

  /** How many entry lines yield a non-empty word, duplicates included. */
  function KeptCount(entries: seq<string>): nat
  {
    if entries == [] then 0
    else KeptCount(entries[..|entries| - 1]) + (if DicWord(entries[|entries| - 1]) != [] then 1 else 0)
  }

  lemma KeptCountSnoc(front: seq<string>, line: string)
    ensures KeptCount(front + [line]) == KeptCount(front) + (if DicWord(line) != [] then 1 else 0)
  {
    assert (front + [line])[..|front|] == front;
  }

  /** Reading line i of entries adds its word, if it has one, and counts it. */
  lemma EntryStep(entries: seq<string>, i: nat)
    requires i < |entries|
    ensures DicWords(entries[..i + 1]) == DicWords(entries[..i]) + (if DicWord(entries[i]) != [] then {DicWord(entries[i])} else {})
    ensures KeptCount(entries[..i + 1]) == KeptCount(entries[..i]) + (if DicWord(entries[i]) != [] then 1 else 0)
  {
    assert entries[..i + 1] == entries[..i] + [entries[i]];
    DicWordsSnoc(entries[..i], entries[i]);
    KeptCountSnoc(entries[..i], entries[i]);
  }

  /** Reading one more line adds its word, if it has one. */
  lemma DicWordsSnoc(front: seq<string>, line: string)
    ensures DicWords(front + [line]) == DicWords(front) + (if DicWord(line) != [] then {DicWord(line)} else {})
  {
    assert forall l :: l in front + [line] <==> l in front || l == line;
  }

  /** Duplicates are counted: the counter is at least the number of distinct words. */
  lemma {:induction false} DistinctAtMostKept(entries: seq<string>)
    ensures |DicWords(entries)| <= KeptCount(entries)
    decreases |entries|
  {
    if entries != [] {
      var front, last := entries[..|entries| - 1], entries[|entries| - 1];
      DistinctAtMostKept(front);
      assert entries == front + [last];
      DicWordsSnoc(front, last);
      var w := DicWord(last);
      if w != [] {
        assert |DicWords(front) + {w}| <= |DicWords(front)| + 1;
      }
    }
  }

  /** The words a dictionary file newly contributes never outnumber the counter's growth. */
  lemma NewWordsAtMostKept(before: set<string>, entries: seq<string>)
    ensures |(before + DicWords(entries)) - before| <= KeptCount(entries)
  {
    assert (before + DicWords(entries)) - before <= DicWords(entries);
    SubsetNoLarger((before + DicWords(entries)) - before, DicWords(entries));
    DistinctAtMostKept(entries);
  }

  /** The source words the five-letter filter keeps. */
  predicate Passes(w: string) {
    && |Expand(w)| == 5
    && forall i :: 0 <= i < |w| ==> IsAlpha(w[i]) || w[i] in ACCENTED
  }

  /** The set filter_5letter_words leaves in words. */
  function FiveLetterWords(s: set<string>): set<string> {
    Image(Filter(s, Passes), Expand)
  }

  /** Every kept word is five characters long and holds no ligature. */
  lemma FiveLetterWordsShape(s: set<string>, w: string)
    requires w in FiveLetterWords(s)
    ensures |w| == 5
    ensures forall i :: 0 <= i < |w| ==> !IsLigature(w[i])
  {
    ImageSpec(Filter(s, Passes), Expand);
    var v :| v in Filter(s, Passes) && Expand(v) == w;
    ExpandHasNoLigature(v);
  }

  /** Distinct source words may expand to one word, so the five_letter counter
      bounds the size of the result from above. */
  lemma FiveLetterCountBound(s: set<string>)
    ensures |FiveLetterWords(s)| <= |Filter(s, Passes)|
  {
    ImageNoLarger(Filter(s, Passes), Expand);
  }

  /** "c'est" expands to five characters but fails the letter test, which
      looks at the word as written. */
  lemma ApostropheDropped()
    ensures |Expand("c'est")| == 5 && !Passes("c'est")
  {
    ExpandWithoutLigatures("c'est");
    assert !IsAlpha("c'est"[1]) && "c'est"[1] !in ACCENTED;
  }

  /** "bœuf" passes the letter test and is kept as "boeuf". */
  lemma LigatureKept()
    ensures Passes("bœuf") && Expand("bœuf") == "boeuf"
  {
    ExpandConcat("b", "œuf");
    ExpandConcat("œ", "uf");
    ExpandWithoutLigatures("b");
    ExpandWithoutLigatures("uf");
    ExpandOneChar('œ');
  }

  /** The letter test looks at the word as written: of "c'est" and "bœuf",
      only "bœuf" is kept, as "boeuf". */
  lemma LetterTestOnOriginal()
    ensures FiveLetterWords({"c'est", "bœuf"}) == {"boeuf"}
  {
    ApostropheDropped();
    LigatureKept();
    FilterSpec({"c'est", "bœuf"}, Passes);
    assert Filter({"c'est", "bœuf"}, Passes) == {"bœuf"};
  }

  /** The state of LibreOfficeExtractor: the word set and its two counters. */
  class LibreOfficeExtractor {
    var words: set<string>
    var totalExtracted: nat
    var fiveLetter: nat

    constructor ()
      ensures words == {} && totalExtracted == 0 && fiveLetter == 0
    {
      words := {};
      totalExtracted := 0;
      fiveLetter := 0;
    }

    /** extract_from_dic on the lines of a file. A first line that int()
        rejects is the error path: nothing changes and the result is false. */
    method ExtractFromDic(lines: seq<string>) returns (ok: bool)
      modifies this
      ensures ok <==> CountLineParses(lines)
      ensures ok ==> words == old(words) + DicWords(Entries(lines))
      ensures ok ==> totalExtracted == old(totalExtracted) + KeptCount(Entries(lines))
      ensures !ok ==> words == old(words) && totalExtracted == old(totalExtracted)
      ensures lines == [] ==> ok && words == old(words) && totalExtracted == old(totalExtracted)
      ensures fiveLetter == old(fiveLetter)
    {
      if !CountLineParses(lines) {
        return false;
      }
      AddEntryWords(Entries(lines));
      return true;
    }

    /** The loop of extract_from_dic over the lines after the count line. */
    method AddEntryWords(entries: seq<string>)
      modifies this
      ensures words == old(words) + DicWords(entries)
      ensures totalExtracted == old(totalExtracted) + KeptCount(entries)
      ensures fiveLetter == old(fiveLetter)
    {
      var i := 0;
      assert entries[..0] == [];
      while i < |entries|
        invariant 0 <= i <= |entries|
        invariant words == old(words) + DicWords(entries[..i])
        invariant totalExtracted == old(totalExtracted) + KeptCount(entries[..i])
        invariant fiveLetter == old(fiveLetter)
      {
        EntryStep(entries, i);
        var word := DicWord(entries[i]);
        if word != [] {
          words := words + {word};
          totalExtracted := totalExtracted + 1;
        }
        i := i + 1;
      }
      assert entries[..i] == entries;
    }

    /** filter_5letter_words: keeps the expansion of every word that passes
        and counts the words that pass. */
    method Filter5LetterWords() returns (ok: bool)
      modifies this
      ensures ok
      ensures words == FiveLetterWords(old(words))
      ensures fiveLetter == old(fiveLetter) + |Filter(old(words), Passes)|
      ensures totalExtracted == old(totalExtracted)
    {
      var fiveLetterSet: set<string> := {};
      ghost var source, count := words, fiveLetter;
      var remaining := words;
      while remaining != {}
        invariant remaining <= source
        invariant words == source && totalExtracted == old(totalExtracted)
        invariant fiveLetterSet == Image(Filter(source - remaining, Passes), Expand)
        invariant fiveLetter == count + |Filter(source - remaining, Passes)|
        decreases remaining
      {
        var word :| word in remaining;
        ghost var done := source - remaining;
        assert source - (remaining - {word}) == done + {word};
        FilterAddOne(done, word, Passes);
        FilterStep(done, word, Passes);
        var expandedWord := ExpandLigatures(word);
        if |expandedWord| == 5 {
          if forall i | 0 <= i < |word| :: IsAlpha(word[i]) || word[i] in ACCENTED {
            assert Passes(word);
            ImageAddOne(Filter(done, Passes), word, Expand);
            fiveLetterSet := fiveLetterSet + {expandedWord};
            fiveLetter := fiveLetter + 1;
          }
        }
        remaining := remaining - {word};
      }
      assert source - remaining == source;
      words := fiveLetterSet;
      return true;
    }
  }
}
