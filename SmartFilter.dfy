/** The heuristic filter with spell-checker fallback (scripts/smart_filter.py):
    an ordered rule chain that counts why it rejects a word, a spell-checker
    that may rescue rejected words, and a final accent normalisation. */
module SmartFilter {
  import opened Text
  import opened SetFacts
  import opened Sorting

  datatype Option<T> = None | Some(value: T)

  /** The vowel class of the rule chain's regular expressions. */
  const VOWELS: string := "aeiouyàâäéèêëïîôöœùûüæ"
  /** The consonant class of the start-shape regular expression. */
  const CONSONANTS: string := "bcdfghjklmnpqrstvwxyz"
  /** Two-letter endings that reject a word. */
  const BAD_ENDINGS: seq<string> := ["nm", "bd", "fh", "jk", "qx", "zz", "ww"]

  /** The rules of _is_valid_word, one per rejected_* counter. */
  datatype Reason = ProperNoun | Length | NoVowel | DoubleStart | BadEnding | BadStart

  /** The order in which _is_valid_word tries its rules. */
  const RULES: seq<Reason> := [ProperNoun, Length, NoVowel, DoubleStart, BadEnding, BadStart]

  /** The keys of the stats dictionary. */
  datatype Counter = Rejected(reason: Reason) | InitialAccepted | SpellcheckValidated

  /** stats[k] on a defaultdict(int): a missing key reads as 0. */
  function Get(stats: map<Counter, nat>, k: Counter): nat {
    if k in stats then stats[k] else 0
  }

  /** stats[k] += 1: that counter goes up by one and no other changes. */
  function Bump(stats: map<Counter, nat>, k: Counter): (r: map<Counter, nat>)
    ensures forall j :: Get(r, j) == Get(stats, j) + (if j == k then 1 else 0)
  {
    stats[k := Get(stats, k) + 1]
  }

  predicate IsVowel(c: char) {
    c in VOWELS
  }

  predicate IsConsonant(c: char) {
    c in CONSONANTS
  }

  /** re.match of ^([V]|[C]{1,3}[V]): a vowel first, or one to three
      consonants and then a vowel. */
  predicate StartShape(w: string) {
    && |w| > 0
    && (|| IsVowel(w[0])
        || (&& IsConsonant(w[0]) && |w| > 1
            && (|| IsVowel(w[1])
                || (&& IsConsonant(w[1]) && |w| > 2
                    && (|| IsVowel(w[2])
                        || (IsConsonant(w[2]) && |w| > 3 && IsVowel(w[3])))))))
  }

  /** One to k consonants and then a vowel at position k. */
  predicate ConsonantsThenVowel(w: string, k: int) {
    1 <= k <= 3 && k < |w| && IsVowel(w[k]) && forall j :: 0 <= j < k ==> IsConsonant(w[j])
  }

  lemma ShapeOfConsonantsThenVowel(w: string, k: int)
    requires ConsonantsThenVowel(w, k)
    ensures StartShape(w)
  {
    assert IsConsonant(w[0]);
    if k >= 2 { assert IsConsonant(w[1]); }
    if k == 3 { assert IsConsonant(w[2]); }
  }

  lemma ConsonantsThenVowelOfShape(w: string)
    requires StartShape(w) && !IsVowel(w[0])
    ensures exists k :: ConsonantsThenVowel(w, k)
  {
    if IsVowel(w[1]) {
      assert ConsonantsThenVowel(w, 1);
    } else if IsVowel(w[2]) {
      assert ConsonantsThenVowel(w, 2);
    } else {
      forall j | 0 <= j < 3 ensures IsConsonant(w[j]) {
        assert j == 0 || j == 1 || j == 2;
      }
      assert ConsonantsThenVowel(w, 3);
    }
  }

  /** The start-shape test read as the regular expression states it. */
  lemma StartShapeSpec(w: string)
    ensures StartShape(w) <==> (|w| > 0 && IsVowel(w[0])) || exists k :: ConsonantsThenVowel(w, k)
  {
    if exists k :: ConsonantsThenVowel(w, k) {
      var k :| ConsonantsThenVowel(w, k);
      ShapeOfConsonantsThenVowel(w, k);
    }
    if StartShape(w) && !IsVowel(w[0]) {
      ConsonantsThenVowelOfShape(w);
    }
  }

  /** any(c in vowels for c in word). */
  predicate HasVowel(w: string) {
    exists i :: 0 <= i < |w| && IsVowel(w[i])
  }

  /** any(word.endswith(e) for e in bad_endings). */
  predicate HasBadEnding(w: string) {
    exists e :: e in BAD_ENDINGS && EndsWith(w, e)
  }

  /** Whether word passes the rule whose failure counts as reason. */
  predicate Holds(reason: Reason, w: string) {
    match reason
    case ProperNoun => !(|w| > 0 && IsUpper(w[0]))
    case Length => 3 <= |w| <= 5
    case NoVowel => HasVowel(w)
    case DoubleStart => !(|w| > 1 && w[0] == w[1])
    case BadEnding => !HasBadEnding(w)
    case BadStart => StartShape(w)
  }

  /** The first of rules that w breaks, if any. */
  function FirstBroken(rules: seq<Reason>, w: string): Option<Reason> {
    if rules == [] then None
    else if !Holds(rules[0], w) then Some(rules[0])
    else FirstBroken(rules[1..], w)
  }

  /** The verdict of the rule chain: the reason it rejects w, or None. */
  function Verdict(w: string): (r: Option<Reason>)
    ensures r.Some? ==> !Holds(r.value, w)
    ensures r.None? ==> Holds(ProperNoun, w) && Holds(Length, w) && Holds(NoVowel, w)
    ensures r.None? ==> Holds(DoubleStart, w) && Holds(BadEnding, w) && Holds(BadStart, w)
  {
    FirstBrokenSpec(RULES, w);
    FirstBroken(RULES, w)
  }

  predicate Accepts(w: string) {
    Verdict(w).None?
  }

  predicate RejectsWord(w: string) {
    Verdict(w).Some?
  }

  /** The search finds a broken rule exactly when there is one. */
  lemma {:induction false} FirstBrokenSpec(rules: seq<Reason>, w: string)
    ensures FirstBroken(rules, w).Some? ==> FirstBroken(rules, w).value in rules && !Holds(FirstBroken(rules, w).value, w)
    ensures FirstBroken(rules, w).None? <==> forall x :: x in rules ==> Holds(x, w)
    decreases |rules|
  {
    if rules != [] && Holds(rules[0], w) {
      FirstBrokenSpec(rules[1..], w);
      assert forall x :: x in rules ==> x == rules[0] || x in rules[1..];
    }
  }

  /** The chain accepts a word exactly when the word keeps every rule. */
  lemma AcceptsIffAllHold(w: string)
    ensures Accepts(w) <==> forall x :: x in RULES ==> Holds(x, w)
  {
    FirstBrokenSpec(RULES, w);
  }

  lemma {:induction false} FirstBrokenAt(rules: seq<Reason>, w: string, k: nat)
    requires k < |rules|
    requires forall i, j :: 0 <= i < j < |rules| ==> rules[i] != rules[j]
    ensures FirstBroken(rules, w) == Some(rules[k]) <==> !Holds(rules[k], w) && forall j :: 0 <= j < k ==> Holds(rules[j], w)
    decreases |rules|
  {
    if k == 0 {
      FirstBrokenSpec(rules[1..], w);
    } else {
      FirstBrokenAt(rules[1..], w, k - 1);
      assert rules[1..][k - 1] == rules[k];
      if !Holds(rules[0], w) {
        assert rules[0] != rules[k];
      } else {
        assert FirstBroken(rules, w) == FirstBroken(rules[1..], w);
        assert (forall j :: 0 <= j < k ==> Holds(rules[j], w)) <==> (forall j :: 0 <= j < k - 1 ==> Holds(rules[1..][j], w)) by {
          forall j | 0 < j < k ensures rules[j] == rules[1..][j - 1] {
          }
        }
      }
    }
  }

  /** The rejection reason is the first rule, in chain order, that the word breaks. */
  lemma VerdictIsFirstBrokenRule(w: string, k: nat)
    requires k < |RULES|
    ensures Verdict(w) == Some(RULES[k]) <==> !Holds(RULES[k], w) && forall j :: 0 <= j < k ==> Holds(RULES[j], w)
  {
    FirstBrokenAt(RULES, w, k);
  }

  /** What an accepted word looks like. */
  lemma AcceptedWordShape(w: string)
    requires Accepts(w)
    ensures 3 <= |w| <= 5
    ensures !IsUpper(w[0])
    ensures exists i :: 0 <= i < |w| && IsVowel(w[i])
    ensures w[0] != w[1]
    ensures forall e :: e in BAD_ENDINGS ==> !EndsWith(w, e)
    ensures IsVowel(w[0]) || exists k :: ConsonantsThenVowel(w, k)
  {
    AcceptsIffAllHold(w);
    assert Holds(ProperNoun, w) && Holds(Length, w) && Holds(NoVowel, w);
    assert Holds(DoubleStart, w) && Holds(BadEnding, w) && Holds(BadStart, w);
    StartShapeSpec(w);
  }

  /** A capital first letter rejects the word as a proper noun, whatever follows. */
  lemma UppercaseStartRejected(w: string)
    requires |w| > 0 && IsUpper(w[0])
    ensures Verdict(w) == Some(ProperNoun)
  {
  }

  /** The accent_map table of _normalize_word. */
  const ACCENT_MAP: map<char, string> := map[
    'à' := "a", 'â' := "a", 'ä' := "a",
    'é' := "e", 'è' := "e", 'ê' := "e", 'ë' := "e",
    'ï' := "i", 'î' := "i",
    'ô' := "o", 'ö' := "o", 'œ' := "oe",
    'ù' := "u", 'û' := "u", 'ü' := "u",
    'ç' := "c",
    'æ' := "ae"
  ]

  /** accent_map.get(c, c). */
  function AccentOf(c: char): string {
    if c in ACCENT_MAP then ACCENT_MAP[c] else [c]
  }

  /** Every replacement in the table is made of ASCII lower-case letters,
      and only œ and æ become two letters. */
  lemma AccentTable(c: char)
    requires c in ACCENT_MAP
    ensures forall i :: 0 <= i < |ACCENT_MAP[c]| ==> 'a' <= ACCENT_MAP[c][i] <= 'z'
    ensures c >= 'à'
    ensures |ACCENT_MAP[c]| == if c == 'œ' || c == 'æ' then 2 else 1
  {
  }

  /** The accent map applied to each character of s, left to right. */
  function MapAccents(s: string): string {
    if s == [] then [] else MapAccents(s[..|s| - 1]) + AccentOf(s[|s| - 1])
  }

  /** What _normalize_word returns. */
  function Normalize(w: string): string {
    MapAccents(Lower(w))
  }

  /** _normalize_word: lower-cases the word, then appends the mapped form
      of each character. */
  method NormalizeWord(word: string) returns (normalized: string)
    ensures normalized == Normalize(word)
  {
    var lowered := Lower(word);
    normalized := "";
    var i := 0;
    while i < |lowered|
      invariant 0 <= i <= |lowered|
      invariant normalized == MapAccents(lowered[..i])
    {
      assert lowered[..i + 1][..i] == lowered[..i];
      normalized := normalized + AccentOf(lowered[i]);
      i := i + 1;
    }
    assert lowered[..i] == lowered;
  }

  /** Associativity of concatenation, a fact Dafny knows; stated as a lemma
      only so that MapAccentsConcat can use it cheaply. No source counterpart. */
  lemma ConcatAssoc(x: string, y: string, z: string)
    ensures (x + y) + z == x + (y + z)
  {
  }

  lemma {:induction false} MapAccentsConcat(a: string, b: string)
    ensures MapAccents(a + b) == MapAccents(a) + MapAccents(b)
    decreases |b|
  {
    if b == [] {
      assert a + b == a;
    } else {
      var b', c := b[..|b| - 1], b[|b| - 1];
      assert (a + b)[..|a + b| - 1] == a + b';
      assert (a + b)[|a + b| - 1] == c;
      MapAccentsConcat(a, b');
      calc {
        MapAccents(a + b);
        MapAccents(a + b') + AccentOf(c);
        (MapAccents(a) + MapAccents(b')) + AccentOf(c);
        { ConcatAssoc(MapAccents(a), MapAccents(b'), AccentOf(c)); }
        MapAccents(a) + (MapAccents(b') + AccentOf(c));
        MapAccents(a) + MapAccents(b);
      }
    }
  }

  /** A character the map leaves alone, together with the characters it
      produces, is plain: neither a key of the map nor upper case. */
  predicate Plain(c: char) {
    c !in ACCENT_MAP && !IsUpper(c)
  }

  lemma {:induction false} MapAccentsPlain(s: string)
    requires forall i :: 0 <= i < |s| ==> !IsUpper(s[i])
    ensures forall i :: 0 <= i < |MapAccents(s)| ==> Plain(MapAccents(s)[i])
    decreases |s|
  {
    if s != [] {
      var front, c := s[..|s| - 1], s[|s| - 1];
      MapAccentsPlain(front);
      if c in ACCENT_MAP {
        AccentTable(c);
      }
      var m := MapAccents(front);
      forall i | 0 <= i < |MapAccents(s)| ensures Plain(MapAccents(s)[i]) {
        if i >= |m| {
          assert MapAccents(s)[i] == AccentOf(c)[i - |m|];
        } else {
          assert MapAccents(s)[i] == m[i];
        }
      }
    }
  }

  /** Plain strings are left unchanged by the map. */
  lemma {:induction false} MapAccentsOfPlain(s: string)
    requires forall i :: 0 <= i < |s| ==> s[i] !in ACCENT_MAP
    ensures MapAccents(s) == s
    decreases |s|
  {
    if s != [] {
      var front, c := s[..|s| - 1], s[|s| - 1];
      forall i | 0 <= i < |front| ensures front[i] !in ACCENT_MAP {
        assert front[i] == s[i];
      }
      MapAccentsOfPlain(front);
      assert AccentOf(c) == [c] by {
        assert s[|s| - 1] !in ACCENT_MAP;
      }
      assert s == front + [c];
    }
  }

  /** The normalised word is lower case and holds no key of the accent map. */
  lemma NormalizePlain(w: string)
    ensures forall i :: 0 <= i < |Normalize(w)| ==> Normalize(w)[i] !in ACCENT_MAP && !IsUpper(Normalize(w)[i])
  {
    LowerIdempotent(w);
    MapAccentsPlain(Lower(w));
  }

  lemma NormalizeIdempotent(w: string)
    ensures Normalize(Normalize(w)) == Normalize(w)
  {
    var n := Normalize(w);
    NormalizePlain(w);
    assert Lower(n) == n;
    MapAccentsOfPlain(n);
  }

  /** How many characters of s are œ or æ. */
  function CountOeAe(s: string): nat {
    if s == [] then 0 else CountOeAe(s[..|s| - 1]) + (if s[|s| - 1] == 'œ' || s[|s| - 1] == 'æ' then 1 else 0)
  }

  /** Normalising adds one character per œ or æ of the lower-cased word. */
  lemma {:induction false} MapAccentsLength(s: string)
    ensures |MapAccents(s)| == |s| + CountOeAe(s)
    decreases |s|
  {
    if s != [] {
      MapAccentsLength(s[..|s| - 1]);
      var c := s[|s| - 1];
      if c in ACCENT_MAP {
        AccentTable(c);
      }
    }
  }

  lemma NormalizeLength(w: string)
    ensures |Normalize(w)| == |w| + CountOeAe(Lower(w))
  {
    MapAccentsLength(Lower(w));
  }

  /** What one spell-checker call does: answer, or raise. */
  datatype Lookup = Found(known: bool) | Raised

  /** The enchant dictionary: absent when it could not be loaded. */
  datatype SpellChecker = Unavailable | Available(lookup: string -> Lookup)

  /** _check_spellcheck. */
  function CheckSpellcheck(sc: SpellChecker, word: string): (r: bool)
    ensures r ==> sc.Available? && sc.lookup(word) == Found(true)
    ensures sc.Available? && sc.lookup(word) == Found(true) ==> r
  {
    match sc
    case Unavailable => false
    case Available(lookup) =>
      match lookup(word)
      case Found(known) => known
      case Raised => false
  }

  /** The raw words the rule chain accepts (initial_accepted). */
  function HeuristicAccepted(raw: set<string>): set<string> {
    Filter(raw, Accepts)
  }

  /** The raw words the rule chain rejects (to_spellcheck): with
      HeuristicAccepted, a partition of raw. */
  function ToSpellcheck(raw: set<string>): set<string> {
    Filter(raw, RejectsWord)
  }

  /** Every raw word lands in exactly one of initial_accepted and
      to_spellcheck. */
  lemma ClassifyPartitions(raw: set<string>)
    ensures ToSpellcheck(raw) !! HeuristicAccepted(raw)
    ensures ToSpellcheck(raw) + HeuristicAccepted(raw) == raw
  {
  }

  /** The test the spell-check loop applies to each word. */
  function KnownBy(sc: SpellChecker): string -> bool {
    w => CheckSpellcheck(sc, w)
  }

  /** The words of s the spell-checker knows. */
  function Rescued(sc: SpellChecker, s: set<string>): set<string> {
    Filter(s, KnownBy(sc))
  }

  /** The word sets of the spell-check loop once it has visited done: each
      visited word is either rescued (accepted and validated) or rejected. */
  ghost predicate RescueSets(sc: SpellChecker, done: set<string>,
    accepted0: set<string>, validated0: set<string>, rejected0: set<string>,
    accepted: set<string>, validated: set<string>, rejected: set<string>)
  {
    && accepted == accepted0 + Rescued(sc, done)
    && validated == validated0 + Rescued(sc, done)
    && rejected == rejected0 + (done - Rescued(sc, done))
  }

  /** The counters of the spell-check loop once it has visited done: one
      spellcheck_validated per rescued word, no other counter touched. */
  ghost predicate RescueCounts(sc: SpellChecker, done: set<string>, stats0: map<Counter, nat>, stats: map<Counter, nat>) {
    && Get(stats, SpellcheckValidated) == Get(stats0, SpellcheckValidated) + |Rescued(sc, done)|
    && forall k :: k != SpellcheckValidated ==> Get(stats, k) == Get(stats0, k)
  }

  /** One turn of the spell-check loop over all, with remaining still to
      visit: w is rescued (added to the accepted and validated sets, one more
      spellcheck_validated) or rejected. */
  lemma RescueSetsStep(sc: SpellChecker, all: set<string>, remaining: set<string>, w: string,
    accepted0: set<string>, validated0: set<string>, rejected0: set<string>,
    accepted: set<string>, validated: set<string>, rejected: set<string>,
    accepted': set<string>, validated': set<string>, rejected': set<string>)
    requires w in remaining && remaining <= all
    requires RescueSets(sc, all - remaining, accepted0, validated0, rejected0, accepted, validated, rejected)
    requires CheckSpellcheck(sc, w) ==> accepted' == accepted + {w} && validated' == validated + {w} && rejected' == rejected
    requires !CheckSpellcheck(sc, w) ==> accepted' == accepted && validated' == validated && rejected' == rejected + {w}
    ensures RescueSets(sc, all - (remaining - {w}), accepted0, validated0, rejected0, accepted', validated', rejected')
  {
    assert all - (remaining - {w}) == (all - remaining) + {w};
    FilterStep(all - remaining, w, KnownBy(sc));
  }

  lemma RescueCountsStep(sc: SpellChecker, all: set<string>, remaining: set<string>, w: string,
    stats0: map<Counter, nat>, stats: map<Counter, nat>, stats': map<Counter, nat>)
    requires w in remaining && remaining <= all
    requires RescueCounts(sc, all - remaining, stats0, stats)
    requires stats' == if CheckSpellcheck(sc, w) then Bump(stats, SpellcheckValidated) else stats
    ensures RescueCounts(sc, all - (remaining - {w}), stats0, stats')
  {
    assert all - (remaining - {w}) == (all - remaining) + {w};
    FilterAddOne(all - remaining, w, KnownBy(sc));
  }

  /** The rejected raw words the spell-checker rescues (validated). */
  function Validated(sc: SpellChecker, raw: set<string>): set<string> {
    Rescued(sc, ToSpellcheck(raw))
  }

  /** Only words the rule chain rejected can be rescued, and a rescued word
      is one the dictionary knows. */
  lemma ValidatedSpec(sc: SpellChecker, raw: set<string>)
    ensures Validated(sc, raw) <= ToSpellcheck(raw)
    ensures forall w :: w in Validated(sc, raw) <==> w in raw && RejectsWord(w) && sc.Available? && sc.lookup(w) == Found(true)
  {
  }

  /** Without a spell-checker nothing is rescued. */
  lemma DegradedModeRescuesNothing(raw: set<string>)
    ensures Validated(Unavailable, raw) == {}
  {
  }

  lemma DegradedOrNothingToCheck(sc: SpellChecker, raw: set<string>)
    requires sc.Unavailable? || ToSpellcheck(raw) == {}
    ensures Validated(sc, raw) == {}
  {
  }

  /** The test a rejection counter applies to each word. */
  function RejectedAs(reason: Reason): string -> bool {
    w => Verdict(w) == Some(reason)
  }

  /** The raw words rejected for reason. */
  function RejectedFor(raw: set<string>, reason: Reason): set<string> {
    Filter(raw, RejectedAs(reason))
  }

  /** What the classification loop of filter_words has done to stats once
      it has seen done: one rejection per word and reason, nothing else. */
  ghost predicate ClassifyCounts(done: set<string>, stats0: map<Counter, nat>, stats: map<Counter, nat>) {
    && (forall r :: Get(stats, Rejected(r)) == Get(stats0, Rejected(r)) + |RejectedFor(done, r)|)
    && Get(stats, InitialAccepted) == Get(stats0, InitialAccepted)
    && Get(stats, SpellcheckValidated) == Get(stats0, SpellcheckValidated)
  }

  lemma ClassifyCountsStep(done: set<string>, w: string, stats0: map<Counter, nat>, stats: map<Counter, nat>)
    requires w !in done
    requires ClassifyCounts(done, stats0, stats)
    ensures Accepts(w) ==> ClassifyCounts(done + {w}, stats0, stats)
    ensures RejectsWord(w) ==> ClassifyCounts(done + {w}, stats0, Bump(stats, Rejected(Verdict(w).value)))
  {
    forall r ensures |RejectedFor(done + {w}, r)| == |RejectedFor(done, r)| + (if Verdict(w) == Some(r) then 1 else 0) {
      FilterAddOne(done, w, RejectedAs(r));
    }
  }

  /** words_accepted of filter_words before normalisation. */
  function AcceptedBeforeNormalize(sc: SpellChecker, raw: set<string>): set<string> {
    HeuristicAccepted(raw) + Validated(sc, raw)
  }

  /** words_rejected of filter_words before normalisation: extended by the
      words the spell-checker does not know when it runs, and replaced by
      to_spellcheck when it does not. */
  function RejectedBeforeNormalize(sc: SpellChecker, raw: set<string>, rejected0: set<string>): set<string> {
    if sc.Available? && ToSpellcheck(raw) != {}
    then rejected0 + (ToSpellcheck(raw) - Validated(sc, raw))
    else ToSpellcheck(raw)
  }

  /** Without a spell-checker, filter_words accepts exactly what the rule
      chain accepts, rejects exactly what it rejects, and validates nothing. */
  lemma DegradedModeOutcome(raw: set<string>, rejected0: set<string>)
    ensures AcceptedBeforeNormalize(Unavailable, raw) == HeuristicAccepted(raw)
    ensures RejectedBeforeNormalize(Unavailable, raw, rejected0) == ToSpellcheck(raw)
    ensures Validated(Unavailable, raw) == {}
  {
    DegradedModeRescuesNothing(raw);
  }

  /** The counters filter_words leaves: one rejection count per reason, the
      size of initial_accepted, and one more spellcheck_validated per
      rescued word. */
  lemma CountsAfterFilter(raw: set<string>, rescued: set<string>,
    stats0: map<Counter, nat>, stats1: map<Counter, nat>, stats2: map<Counter, nat>, stats3: map<Counter, nat>)
    requires ClassifyCounts(raw, stats0, stats1)
    requires stats2 == stats1[InitialAccepted := |HeuristicAccepted(raw)|]
    requires Get(stats3, SpellcheckValidated) == Get(stats2, SpellcheckValidated) + |rescued|
    requires forall k :: k != SpellcheckValidated ==> Get(stats3, k) == Get(stats2, k)
    ensures forall r :: Get(stats3, Rejected(r)) == Get(stats0, Rejected(r)) + |RejectedFor(raw, r)|
    ensures Get(stats3, InitialAccepted) == |HeuristicAccepted(raw)|
    ensures Get(stats3, SpellcheckValidated) == Get(stats0, SpellcheckValidated) + |rescued|
  {
    forall r ensures Get(stats3, Rejected(r)) == Get(stats0, Rejected(r)) + |RejectedFor(raw, r)| {
      assert Get(stats2, Rejected(r)) == Get(stats1, Rejected(r));
    }
    assert Get(stats3, InitialAccepted) == Get(stats2, InitialAccepted);
  }

  /** Normalisation runs after the split, so one normalised word can land in
      both the accepted and the rejected set: "porte" passes the rule chain,
      "Porte" is rejected as a proper noun, and both normalise to "porte". */
  lemma NormalizedSetsMayOverlap()
    ensures Accepts("porte") && Verdict("Porte") == Some(ProperNoun)
    ensures Normalize("porte") == "porte" && Normalize("Porte") == "porte"
  {
    PorteAccepted();
    UppercaseStartRejected("Porte");
    PorteNormalizes();
  }

  lemma PorteNormalizes()
    ensures Normalize("porte") == "porte" && Normalize("Porte") == "porte"
  {
    var w := "porte";
    assert Lower("Porte") == w by {
      assert LowerChar('P') == 'p';
    }
    assert Lower(w) == w;
    MapAccentsOfPlain(w);
  }

  lemma PorteAccepted()
    ensures Accepts("porte")
  {
    var w := "porte";
    assert Holds(ProperNoun, w) && Holds(Length, w) && Holds(DoubleStart, w);
    assert Holds(NoVowel, w) by {
      assert IsVowel(w[1]);
    }
    assert Holds(BadEnding, w) by {
      forall e | e in BAD_ENDINGS ensures !EndsWith(w, e) {
        assert w[3..] == "te";
      }
    }
    assert Holds(BadStart, w);
  }

  /** The words load_words keeps from the lines of a file: each stripped,
      blank ones dropped. */
  function LoadedWords(lines: seq<string>): set<string> {
    set l | l in lines && Strip(l) != [] :: Strip(l)
  }

  lemma LoadedWordsStep(lines: seq<string>, i: nat)
    requires i < |lines|
    ensures LoadedWords(lines[..i + 1]) == LoadedWords(lines[..i]) + (if Strip(lines[i]) != [] then {Strip(lines[i])} else {})
  {
    assert lines[..i + 1] == lines[..i] + [lines[i]];
    assert forall l :: l in lines[..i + 1] <==> l in lines[..i] || l == lines[i];
  }

  /** Every loaded word is non-empty and has no white space at its ends. */
  lemma LoadedWordsAreStripped(lines: seq<string>, w: string)
    requires w in LoadedWords(lines)
    ensures w != [] && !IsSpace(w[0]) && !IsSpace(w[|w| - 1])
    ensures Strip(w) == w
  {
    var l :| l in lines && Strip(l) != [] && Strip(l) == w;
    StripSpec(l);
    StripIdempotent(l);
  }

  /** The normalised form of every word of s. */
  method NormalizeAll(s: set<string>) returns (normalized: set<string>)
    ensures normalized == Image(s, Normalize)
  {
    normalized := {};
    var remaining := s;
    while remaining != {}
      invariant remaining <= s
      invariant normalized == Image(s - remaining, Normalize)
      decreases remaining
    {
      var word :| word in remaining;
      assert s - (remaining - {word}) == (s - remaining) + {word};
      ImageAddOne(s - remaining, word, Normalize);
      var n := NormalizeWord(word);
      normalized := normalized + {n};
      remaining := remaining - {word};
    }
    assert s - remaining == s;
  }

  /** The state of SmartFilterV2. */
  class SmartFilterV2 {
    var wordsRaw: set<string>
    var wordsAccepted: set<string>
    var wordsRejected: set<string>
    var wordsSpellcheckValidated: set<string>
    var stats: map<Counter, nat>
    const spellchecker: SpellChecker

    /** __init__, with the outcome of _init_spellchecker passed in. */
    constructor (spellchecker: SpellChecker)
      ensures wordsRaw == {} && wordsAccepted == {} && wordsRejected == {}
      ensures wordsSpellcheckValidated == {} && stats == map[]
      ensures this.spellchecker == spellchecker
    {
      wordsRaw := {};
      wordsAccepted := {};
      wordsRejected := {};
      wordsSpellcheckValidated := {};
      stats := map[];
      this.spellchecker := spellchecker;
    }

    /** load_words on the lines of a file. */
    method LoadWords(lines: seq<string>)
      modifies this`wordsRaw
      ensures wordsRaw == old(wordsRaw) + LoadedWords(lines)
    {
      var i := 0;
      assert lines[..0] == [];
      while i < |lines|
        invariant 0 <= i <= |lines|
        invariant wordsRaw == old(wordsRaw) + LoadedWords(lines[..i])
      {
        LoadedWordsStep(lines, i);
        var word := Strip(lines[i]);
        if word != [] {
          wordsRaw := wordsRaw + {word};
        }
        i := i + 1;
      }
      assert lines[..i] == lines;
    }

    /** _is_valid_word: the rule chain, bumping the counter of the first
        rule the word breaks. */
    method IsValidWord(word: string) returns (ok: bool)
      modifies this`stats
      ensures ok <==> Accepts(word)
      ensures ok ==> stats == old(stats)
      ensures !ok ==> stats == Bump(old(stats), Rejected(Verdict(word).value))
    {
      if |word| > 0 && IsUpper(word[0]) {
        stats := Bump(stats, Rejected(ProperNoun));
        VerdictIsFirstBrokenRule(word, 0);
        return false;
      }
      if |word| < 3 || |word| > 5 {
        stats := Bump(stats, Rejected(Length));
        VerdictIsFirstBrokenRule(word, 1);
        return false;
      }
      if !HasVowel(word) {
        stats := Bump(stats, Rejected(NoVowel));
        VerdictIsFirstBrokenRule(word, 2);
        return false;
      }
      if |word| > 1 && word[0] == word[1] {
        stats := Bump(stats, Rejected(DoubleStart));
        VerdictIsFirstBrokenRule(word, 3);
        return false;
      }
      if HasBadEnding(word) {
        stats := Bump(stats, Rejected(BadEnding));
        VerdictIsFirstBrokenRule(word, 4);
        return false;
      }
      if !StartShape(word) {
        stats := Bump(stats, Rejected(BadStart));
        VerdictIsFirstBrokenRule(word, 5);
        return false;
      }
      AcceptsIffAllHold(word);
      return true;
    }

    /** The first loop of filter_words: splits the raw words by the rule
        chain, counting the rejections by reason. */
    method ClassifyRaw() returns (initialAccepted: set<string>, toSpellcheck: set<string>)
      modifies this`stats
      ensures initialAccepted == HeuristicAccepted(wordsRaw)
      ensures toSpellcheck == ToSpellcheck(wordsRaw)
      ensures ClassifyCounts(wordsRaw, old(stats), stats)
    {
      initialAccepted, toSpellcheck := {}, {};
      var remaining := wordsRaw;
      while remaining != {}
        invariant remaining <= wordsRaw
        invariant initialAccepted == HeuristicAccepted(wordsRaw - remaining)
        invariant toSpellcheck == ToSpellcheck(wordsRaw - remaining)
        invariant ClassifyCounts(wordsRaw - remaining, old(stats), stats)
        decreases remaining
      {
        var word :| word in remaining;
        ghost var done := wordsRaw - remaining;
        assert wordsRaw - (remaining - {word}) == done + {word};
        ClassifyCountsStep(done, word, old(stats), stats);
        FilterStep(done, word, Accepts);
        FilterStep(done, word, RejectsWord);
        var ok := IsValidWord(word);
        if ok {
          initialAccepted := initialAccepted + {word};
        } else {
          toSpellcheck := toSpellcheck + {word};
        }
        remaining := remaining - {word};
      }
      assert wordsRaw - remaining == wordsRaw;
    }

    /** The spell-check loop of filter_words over the rejected words. */
    method RescueWithSpellchecker(toSpellcheck: set<string>)
      modifies this`wordsAccepted, this`wordsRejected, this`wordsSpellcheckValidated, this`stats
      ensures RescueSets(spellchecker, toSpellcheck,
                old(wordsAccepted), old(wordsSpellcheckValidated), old(wordsRejected),
                wordsAccepted, wordsSpellcheckValidated, wordsRejected)
      ensures RescueCounts(spellchecker, toSpellcheck, old(stats), stats)
    {
      var remaining := toSpellcheck;
      while remaining != {}
        invariant remaining <= toSpellcheck
        invariant RescueSets(spellchecker, toSpellcheck - remaining,
                    old(wordsAccepted), old(wordsSpellcheckValidated), old(wordsRejected),
                    wordsAccepted, wordsSpellcheckValidated, wordsRejected)
        invariant RescueCounts(spellchecker, toSpellcheck - remaining, old(stats), stats)
        decreases remaining
      {
        var word :| word in remaining;
        ghost var accepted, validated, rejected, counts := wordsAccepted, wordsSpellcheckValidated, wordsRejected, stats;
        if CheckSpellcheck(spellchecker, word) {
          wordsSpellcheckValidated := wordsSpellcheckValidated + {word};
          wordsAccepted := wordsAccepted + {word};
          stats := Bump(stats, SpellcheckValidated);
        } else {
          wordsRejected := wordsRejected + {word};
        }
        RescueSetsStep(spellchecker, toSpellcheck, remaining, word,
          old(wordsAccepted), old(wordsSpellcheckValidated), old(wordsRejected),
          accepted, validated, rejected, wordsAccepted, wordsSpellcheckValidated, wordsRejected);
        RescueCountsStep(spellchecker, toSpellcheck, remaining, word, old(stats), counts, stats);
        remaining := remaining - {word};
      }
      assert toSpellcheck - remaining == toSpellcheck;
    }

    /** The branch of filter_words that runs the spell-checker when one is
        loaded and some word was rejected, and otherwise keeps the rejected
        words as they are. */
    method SpellcheckStage(toSpellcheck: set<string>)
      modifies this`wordsAccepted, this`wordsRejected, this`wordsSpellcheckValidated, this`stats
      ensures wordsAccepted == old(wordsAccepted) + Rescued(spellchecker, toSpellcheck)
      ensures wordsSpellcheckValidated == old(wordsSpellcheckValidated) + Rescued(spellchecker, toSpellcheck)
      ensures wordsRejected ==
                if spellchecker.Available? && toSpellcheck != {}
                then old(wordsRejected) + (toSpellcheck - Rescued(spellchecker, toSpellcheck))
                else toSpellcheck
      ensures Get(stats, SpellcheckValidated) == Get(old(stats), SpellcheckValidated) + |Rescued(spellchecker, toSpellcheck)|
      ensures forall k :: k != SpellcheckValidated ==> Get(stats, k) == Get(old(stats), k)
    {
      if spellchecker.Available? && toSpellcheck != {} {
        RescueWithSpellchecker(toSpellcheck);
      } else {
        assert Rescued(spellchecker, toSpellcheck) == {};
        wordsRejected := toSpellcheck;
      }
    }

    /** filter_words up to its normalisation step: the rule chain, then
        the spell-checker over what the chain rejected. */
    method ClassifyAndRescue()
      modifies this`wordsAccepted, this`wordsRejected, this`wordsSpellcheckValidated, this`stats
      ensures wordsAccepted == AcceptedBeforeNormalize(spellchecker, wordsRaw)
      ensures wordsSpellcheckValidated == old(wordsSpellcheckValidated) + Validated(spellchecker, wordsRaw)
      ensures wordsRejected == RejectedBeforeNormalize(spellchecker, wordsRaw, old(wordsRejected))
      ensures forall r :: Get(stats, Rejected(r)) == Get(old(stats), Rejected(r)) + |RejectedFor(wordsRaw, r)|
      ensures Get(stats, InitialAccepted) == |HeuristicAccepted(wordsRaw)|
      ensures Get(stats, SpellcheckValidated) == Get(old(stats), SpellcheckValidated) + |Validated(spellchecker, wordsRaw)|
    {
      ghost var stats0 := stats;
      var initialAccepted, toSpellcheck := ClassifyRaw();
      ghost var stats1 := stats;
      stats := stats[InitialAccepted := |initialAccepted|];
      ghost var stats2 := stats;
      wordsAccepted := initialAccepted;
      ghost var validated := Validated(spellchecker, wordsRaw);
      SpellcheckStage(toSpellcheck);
      CountsAfterFilter(wordsRaw, validated, stats0, stats1, stats2, stats);
    }

    /** The last step of filter_words: both word sets replaced by their
        normalised forms. */
    method NormalizeResults()
      modifies this`wordsAccepted, this`wordsRejected
      ensures wordsAccepted == Image(old(wordsAccepted), Normalize)
      ensures wordsRejected == Image(old(wordsRejected), Normalize)
    {
      wordsAccepted := NormalizeAll(wordsAccepted);
      wordsRejected := NormalizeAll(wordsRejected);
    }

    /** filter_words. */
    method FilterWords()
      modifies this`wordsAccepted, this`wordsRejected, this`wordsSpellcheckValidated, this`stats
      ensures wordsAccepted == Image(AcceptedBeforeNormalize(spellchecker, wordsRaw), Normalize)
      ensures wordsSpellcheckValidated == old(wordsSpellcheckValidated) + Validated(spellchecker, wordsRaw)
      ensures wordsRejected == Image(RejectedBeforeNormalize(spellchecker, wordsRaw, old(wordsRejected)), Normalize)
      ensures forall r :: Get(stats, Rejected(r)) == Get(old(stats), Rejected(r)) + |RejectedFor(wordsRaw, r)|
      ensures Get(stats, InitialAccepted) == |HeuristicAccepted(wordsRaw)|
      ensures Get(stats, SpellcheckValidated) == Get(old(stats), SpellcheckValidated) + |Validated(spellchecker, wordsRaw)|
    {
      ClassifyAndRescue();
      NormalizeResults();
    }

    /** The word list generate_js writes: sorted(words_accepted), used as
        both TARGET_WORDS and VALID_GUESSES. */
    method GenerateJs() returns (targetWords: seq<string>, validGuesses: seq<string>)
      ensures StrictlyAscending(targetWords)
      ensures forall w :: w in targetWords <==> w in wordsAccepted
      ensures validGuesses == targetWords
    {
      targetWords := SortedSet(wordsAccepted);
      validGuesses := targetWords;
    }

    /** The lines save_rejected_words writes: sorted(words_rejected). */
    method SaveRejectedWords() returns (lines: seq<string>)
      ensures StrictlyAscending(lines)
      ensures forall w :: w in lines <==> w in wordsRejected
    {
      lines := SortedSet(wordsRejected);
    }

    /** The lines save_validated_words writes: sorted(words_spellcheck_validated). */
    method SaveValidatedWords() returns (lines: seq<string>)
      ensures StrictlyAscending(lines)
      ensures forall w :: w in lines <==> w in wordsSpellcheckValidated
    {
      lines := SortedSet(wordsSpellcheckValidated);
    }
  }
}
