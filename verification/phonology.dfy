/** Phonological repair of a candidate stem: reversing the devoicing of a
    final consonant (кітаб -> кітап) and restoring an elided harmony vowel
    before the final consonant (ауз -> ауыз), combined into the stem check
    that decides whether a candidate resolves to a known lemma. */
module Phonology {
  import opened Wrappers
  import opened Suffixes

  /** The vowels that decide harmony for elision. This is narrower than
      `Vowels`: у, ё and и are not among them. */
  const BackVowels: set<char> := {'а', 'о', 'ұ', 'ы'}
  const FrontVowels: set<char> := {'ә', 'е', 'ө', 'ү', 'і'}

  predicate IsHarmonyVowel(c: char) {
    c in BackVowels || c in FrontVowels
  }

  predicate NoHarmonyVowel(stem: string) {
    forall j :: 0 <= j < |stem| ==> !IsHarmonyVowel(stem[j])
  }

  /** `stem[i]` is the harmony vowel nearest the end of `stem`. */
  ghost predicate IsLastHarmonyVowel(stem: string, i: int) {
    && 0 <= i < |stem|
    && IsHarmonyVowel(stem[i])
    && forall j :: i < j < |stem| ==> !IsHarmonyVowel(stem[j])
  }

  lemma LastHarmonyVowelUnique(stem: string, i: int, j: int)
    requires IsLastHarmonyVowel(stem, i) && IsLastHarmonyVowel(stem, j)
    ensures i == j
  {
  }

  /** Scans the stem from its end for the first harmony vowel. */
  function LastHarmonyVowel(stem: string): (r: Option<nat>)
    ensures r.Some? ==> IsLastHarmonyVowel(stem, r.value)
    ensures r.None? <==> NoHarmonyVowel(stem)
    decreases |stem|
  {
    if stem == [] then None
    else if IsHarmonyVowel(stem[|stem| - 1]) then Some(|stem| - 1)
    else LastHarmonyVowel(stem[..|stem| - 1])
  }

  /** The vowel to reinsert: ы after a back vowel, і after a front one. */
  function HarmonyVowel(v: char): char {
    if v in BackVowels then 'ы' else 'і'
  }

  /** `stem[:-1] + v + stem[-1]`. */
  function InsertBeforeLast(stem: string, v: char): (r: string)
    requires stem != []
    ensures |r| == |stem| + 1
  {
    stem[..|stem| - 1] + [v] + [stem[|stem| - 1]]
  }

  /** `cand` is `stem` with the harmony-consistent vowel restored before its
      final character. */
  ghost predicate ElisionOf(stem: string, cand: string) {
    && |stem| >= 2
    && exists i :: IsLastHarmonyVowel(stem, i) && cand == InsertBeforeLast(stem, HarmonyVowel(stem[i]))
  }

  lemma ElisionOfUnique(stem: string, c1: string, c2: string)
    requires ElisionOf(stem, c1) && ElisionOf(stem, c2)
    ensures c1 == c2
  {
    var i :| IsLastHarmonyVowel(stem, i) && c1 == InsertBeforeLast(stem, HarmonyVowel(stem[i]));
    var j :| IsLastHarmonyVowel(stem, j) && c2 == InsertBeforeLast(stem, HarmonyVowel(stem[j]));
    LastHarmonyVowelUnique(stem, i, j);
  }

  /** Vowel-elision repair exactly as the scan is written: when the stem
      has no harmony vowel, the "last vowel" stays the empty string, which
      Python finds `in` the back-vowel string, so ы is inserted anyway. */
  function ElisionAsWritten(stem: string, lemmas: set<string>): (r: Option<string>)
    ensures r.Some? ==> r.value in lemmas && |r.value| == |stem| + 1 && |stem| >= 2
  {
    if |stem| < 2 then None
    else
      var v := match LastHarmonyVowel(stem)
        case None => 'ы'
        case Some(i) => HarmonyVowel(stem[i]);
      var cand := InsertBeforeLast(stem, v);
      if cand in lemmas then Some(cand) else None
  }

  /** Vowel-elision repair as intended: no harmony vowel, no repair. */
  function Elision(stem: string, lemmas: set<string>): (r: Option<string>)
    ensures r.Some? ==> r.value in lemmas && |r.value| == |stem| + 1
    ensures |stem| < 2 || NoHarmonyVowel(stem) ==> r.None?
  {
    if |stem| < 2 then None
    else
      match LastHarmonyVowel(stem)
      case None => None
      case Some(i) =>
        var cand := InsertBeforeLast(stem, HarmonyVowel(stem[i]));
        if cand in lemmas then Some(cand) else None
  }

  /** The repair succeeds exactly when the restored form is a lemma, and
      then it returns that form. */
  lemma ElisionSpec(stem: string, lemmas: set<string>)
    ensures var r := Elision(stem, lemmas);
      && (r.Some? ==> ElisionOf(stem, r.value))
      && (r.Some? <==> exists c :: c in lemmas && ElisionOf(stem, c))
  {
    if |stem| >= 2 {
      match LastHarmonyVowel(stem)
      case None =>
      case Some(i) =>
        var cand := InsertBeforeLast(stem, HarmonyVowel(stem[i]));
        assert ElisionOf(stem, cand);
        forall c | ElisionOf(stem, c)
          ensures c == cand
        {
          ElisionOfUnique(stem, c, cand);
        }
    }
  }

  /** The two elision functions differ only on stems without a harmony
      vowel. */
  lemma ElisionAgreesWithVowel(stem: string, lemmas: set<string>)
    requires !NoHarmonyVowel(stem)
    ensures ElisionAsWritten(stem, lemmas) == Elision(stem, lemmas)
  {
  }

  /** On a stem with no harmony vowel the code as written still restores ы
      (бр -> быр), where the intended repair gives up. */
  lemma ElisionAsWrittenOnVowelless(stem: string, lemmas: set<string>)
    requires |stem| >= 2 && NoHarmonyVowel(stem)
    requires InsertBeforeLast(stem, 'ы') in lemmas
    ensures ElisionAsWritten(stem, lemmas) == Some(InsertBeforeLast(stem, 'ы'))
    ensures Elision(stem, lemmas) == None
  {
  }

  lemma ElisionAsWrittenCounterexample()
    ensures ElisionAsWritten("бр", {"быр"}) == Some("быр")
    ensures Elision("бр", {"быр"}) == None
  {
    assert NoHarmonyVowel("бр");
    assert InsertBeforeLast("бр", 'ы') == "быр";
    ElisionAsWrittenOnVowelless("бр", {"быр"});
  }

  /** `cand` is `stem` with its voiced final consonant devoiced: same
      length, same characters except the last. */
  ghost predicate MutationOf(stem: string, cand: string) {
    && |stem| > 0
    && stem[|stem| - 1] in ReverseMutation
    && |cand| == |stem|
    && cand[..|cand| - 1] == stem[..|stem| - 1]
    && cand[|cand| - 1] == ReverseMutation[stem[|stem| - 1]]
  }

  lemma MutationOfUnique(stem: string, c1: string, c2: string)
    requires MutationOf(stem, c1) && MutationOf(stem, c2)
    ensures c1 == c2
  {
    assert c1 == c1[..|c1| - 1] + [c1[|c1| - 1]];
    assert c2 == c2[..|c2| - 1] + [c2[|c2| - 1]];
  }

  /** Replaces a final б, г, ғ or д by п, к, қ or т. */
  function Mutate(stem: string): (r: Option<string>)
    ensures r.Some? <==> stem != [] && stem[|stem| - 1] in ReverseMutation
    ensures r.Some? ==> MutationOf(stem, r.value)
  {
    if stem != [] && stem[|stem| - 1] in ReverseMutation then
      var m := stem[..|stem| - 1] + [ReverseMutation[stem[|stem| - 1]]];
      assert m[..|m| - 1] == stem[..|stem| - 1];
      Some(m)
    else None
  }

  /** How a candidate resolved: as a lemma itself, after undoing mutation,
      after restoring an elided vowel, or not at all. */
  datatype StemCheck = Direct(found: string) | Mutated(found: string) | Elided(found: string) | NotFound

  /** Direct membership first, then mutation, then elision, with the
      elision repair as the source writes it (`ElisionAsWritten`). */
  function CheckStem(stem: string, lemmas: set<string>): (r: StemCheck)
    ensures !r.NotFound? ==> r.found in lemmas
    ensures r.Direct? <==> stem in lemmas
    ensures r.Direct? ==> r.found == stem
  {
    var mutated := Mutate(stem);
    if stem in lemmas then Direct(stem)
    else if mutated.Some? && mutated.value in lemmas then Mutated(mutated.value)
    else
      match ElisionAsWritten(stem, lemmas)
      case Some(e) => Elided(e)
      case None => NotFound
  }

  /** What the repair as written restores: the harmony-consistent form
      when the stem has a harmony vowel, and ы before the last letter when
      it has none. */
  ghost predicate ElisionAsWrittenOf(stem: string, cand: string) {
    || ElisionOf(stem, cand)
    || (|stem| >= 2 && NoHarmonyVowel(stem) && cand == InsertBeforeLast(stem, 'ы'))
  }

  lemma ElisionAsWrittenOfUnique(stem: string, c1: string, c2: string)
    requires ElisionAsWrittenOf(stem, c1) && ElisionAsWrittenOf(stem, c2)
    ensures c1 == c2
  {
    if ElisionOf(stem, c1) && ElisionOf(stem, c2) {
      ElisionOfUnique(stem, c1, c2);
    }
  }

  /** The repair as written succeeds exactly when the form it restores is
      a lemma, and then it returns that form. */
  lemma ElisionAsWrittenSpec(stem: string, lemmas: set<string>)
    ensures var r := ElisionAsWritten(stem, lemmas);
      && (r.Some? ==> ElisionAsWrittenOf(stem, r.value))
      && (r.Some? <==> exists c :: c in lemmas && ElisionAsWrittenOf(stem, c))
  {
    var r := ElisionAsWritten(stem, lemmas);
    if |stem| >= 2 {
      var v := match LastHarmonyVowel(stem)
        case None => 'ы'
        case Some(i) => HarmonyVowel(stem[i]);
      var cand := InsertBeforeLast(stem, v);
      match LastHarmonyVowel(stem)
      case None =>
      case Some(i) =>
        assert ElisionOf(stem, cand);
      assert ElisionAsWrittenOf(stem, cand);
      forall c | ElisionAsWrittenOf(stem, c)
        ensures c == cand
      {
        ElisionAsWrittenOfUnique(stem, c, cand);
      }
    }
  }

  /** The check prefers a direct match to a devoiced one, and a devoiced
      one to a restored vowel; each non-direct result is the repair of the
      stem that its kind names. */
  lemma CheckStemPrecedence(stem: string, lemmas: set<string>)
    ensures var r := CheckStem(stem, lemmas);
      && (r.Mutated? <==> stem !in lemmas && exists m :: m in lemmas && MutationOf(stem, m))
      && (r.Mutated? ==> MutationOf(stem, r.found))
      && (r.Elided? <==>
            && stem !in lemmas
            && (forall m :: MutationOf(stem, m) ==> m !in lemmas)
            && exists e :: e in lemmas && ElisionAsWrittenOf(stem, e))
      && (r.Elided? ==> ElisionAsWrittenOf(stem, r.found))
  {
    var mutated := Mutate(stem);
    assert forall m :: MutationOf(stem, m) ==> mutated == Some(m) by {
      forall m | MutationOf(stem, m)
        ensures mutated == Some(m)
      {
        MutationOfUnique(stem, m, mutated.value);
      }
    }
    ElisionAsWrittenSpec(stem, lemmas);
  }

  /** The stem check with the intended elision repair instead. */
  function CheckStemIntended(stem: string, lemmas: set<string>): (r: StemCheck)
    ensures !r.NotFound? ==> r.found in lemmas
    ensures r.Direct? <==> stem in lemmas
    ensures r.Elided? ==> !NoHarmonyVowel(stem)
  {
    var mutated := Mutate(stem);
    if stem in lemmas then Direct(stem)
    else if mutated.Some? && mutated.value in lemmas then Mutated(mutated.value)
    else
      match Elision(stem, lemmas)
      case Some(e) => Elided(e)
      case None => NotFound
  }

  /** The two checks differ only on stems with no harmony vowel, and there
      only in that the code as written may still restore ы. */
  lemma CheckStemAgreesWithIntended(stem: string, lemmas: set<string>)
    ensures !NoHarmonyVowel(stem) ==> CheckStem(stem, lemmas) == CheckStemIntended(stem, lemmas)
    ensures CheckStem(stem, lemmas) != CheckStemIntended(stem, lemmas) ==>
      && CheckStemIntended(stem, lemmas) == NotFound
      && CheckStem(stem, lemmas) == Elided(InsertBeforeLast(stem, 'ы'))
  {
    if !NoHarmonyVowel(stem) {
      ElisionAgreesWithVowel(stem, lemmas);
    }
  }

  /** What the search treats as a hit: Python's `if hit:` also rejects the
      empty string, so a lemma "" never ends a search. */
  predicate IsHit(c: StemCheck) {
    !c.NotFound? && c.found != []
  }
}
