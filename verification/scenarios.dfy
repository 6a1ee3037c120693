/** Worked cases of the stemmer. "аузы" ("his mouth") loses the
    possessive ы, and the base "ауз" resolves to the lemma "ауыз" by
    restoring the elided vowel. "суы" ("its water") loses the same ы, and
    the vowel-less base "су" resolves to "сыу" through the elision repair
    as written. */
module Scenarios {
  import opened Wrappers
  import opened Text
  import opened Suffixes
  import opened Phonology
  import opened Iteration
  import opened Backtrack
  import opened Stemmer

  /** No table suffix has з or у right before its last letter. */
  lemma NoZBeforeLast(g: Group, s: string)
    requires |s| >= 2 && s[|s| - 2] in {'з', 'у'}
    ensures s !in GroupSuffixes(g)
  {
    match g
    case Pred => NoZInPredicate(s);
    case Case => NoZInCase(s);
    case Poss => NoZInPossessive(s);
    case Plur =>
  }

  lemma NoZInPredicate(s: string)
    requires |s| >= 2 && s[|s| - 2] in {'з', 'у'}
    ensures s !in PredicateSuffixes
  {
  }

  lemma NoZInCase(s: string)
    requires |s| >= 2 && s[|s| - 2] in {'з', 'у'}
    ensures s !in CaseSuffixes
  {
  }

  lemma NoZInPossessive(s: string)
    requires |s| >= 2 && s[|s| - 2] in {'з', 'у'}
    ensures s !in PossessiveSuffixes
  {
  }

  /** No table suffix other than ы ends a word in зы or уы. */
  lemma OnlyYEnds(w: string, g: Group, s: string)
    requires |w| >= 2 && w[|w| - 1] == 'ы' && w[|w| - 2] in {'з', 'у'}
    requires s in GroupSuffixes(g) && EndsWith(w, s)
    ensures s == "ы"
  {
    if |s| >= 2 {
      NoZEnding(w, g, s);
    } else {
      assert s[0] == w[|w| - 1];
      assert s == [s[0]];
    }
  }

  lemma NoZEnding(w: string, g: Group, s: string)
    requires |s| >= 2 && EndsWith(w, s) && w[|w| - 2] in {'з', 'у'}
    ensures s !in GroupSuffixes(g)
  {
    assert s[|s| - 2] == w[|w| - 2];
    NoZBeforeLast(g, s);
  }

  /** The possessive ы is offered for a word ending in ы that is not a
      lemma itself, since the safeguard then does not apply. */
  lemma OffersY(w: string, global: set<string>)
    requires |w| >= 1 && w[|w| - 1] == 'ы' && w !in global
    ensures Candidate(Poss, "ы") in Candidates(w, true, global)
  {
    assert PossessiveSuffixes[18] == "ы";
    assert w[|w| - 1..] == "ы";
    assert !SafeguardSkips(w, "ы", global);
    assert Admissible(w, Poss, "ы", true, global);
  }

  /** When a single table suffix ends the word, every base the search
      walks is the word without it. */
  lemma SoleSuffixBase(w: string, global: set<string>, sole: string, b: string)
    requires forall g, s :: s in GroupSuffixes(g) && EndsWith(w, s) ==> s == sole
    ensures b in Bases(w, global) ==> b == CutTail(w, |sole|)
  {
    if b in Bases(w, global) {
      var cands := Candidates(w, true, global);
      var i :| 0 <= i < |cands| && Bases(w, global)[i] == b;
      var c := cands[i];
      assert c in cands;
    }
  }

  /** A word that is not a hit itself, whose first base is, stems to the
      first base's lemma. */
  lemma FirstBaseHits(w: string, lemmas: set<string>, global: set<string>, exceptions: set<string>, policy: Policy)
    ensures && w !in exceptions && w !in lemmas && !IsHit(CheckStem(w, lemmas))
            && Bases(w, global) != [] && IsHit(CheckStem(Bases(w, global)[0], lemmas))
            ==> StemNormalized(w, lemmas, global, exceptions, policy) == CheckStem(Bases(w, global)[0], lemmas).found
  {
  }

  /** Every base the search walks below a word in зы or уы that is not a
      lemma is the word without its ы, and there is one. */
  lemma YWordBases(w: string, global: set<string>)
    requires |w| >= 2 && w[|w| - 1] == 'ы' && w[|w| - 2] in {'з', 'у'} && w !in global
    ensures Bases(w, global) != []
    ensures forall b :: b in Bases(w, global) ==> b == w[..|w| - 1]
  {
    OffersY(w, global);
    forall g, s | s in GroupSuffixes(g) && EndsWith(w, s)
      ensures s == "ы"
    {
      OnlyYEnds(w, g, s);
    }
    forall b | b in Bases(w, global)
      ensures b == w[..|w| - 1]
    {
      SoleSuffixBase(w, global, "ы", b);
    }
  }

  lemma AuzyNotException()
    ensures "аузы" !in Exceptions
  {
    var w := "аузы";
    assert w[1] != "абай"[1] && w[1] != "және"[1];
    assert |w| != |"алматы"| && |w| != |"туралы"|;
  }

  lemma AuzyChecks()
    ensures CheckStem("аузы", {"ауыз"}) == NotFound
    ensures CheckStem("ауз", {"ауыз"}) == Elided("ауыз")
  {
    assert LastHarmonyVowel("аузы") == Some(3);
    assert InsertBeforeLast("аузы", 'ы') == "аузыы";
    assert LastHarmonyVowel("ауз") == Some(0);
    assert InsertBeforeLast("ауз", 'ы') == "ауыз";
  }

  /** A word in зы or уы that is neither an exception nor a lemma, and
      does not resolve itself, stems to what its base without ы resolves
      to, whenever that base resolves. */
  lemma YWordStems(w: string, lemmas: set<string>, policy: Policy)
    requires |w| >= 2 && w[|w| - 1] == 'ы' && w[|w| - 2] in {'з', 'у'}
    requires w !in lemmas && w !in Exceptions && !IsHit(CheckStem(w, lemmas))
    requires IsHit(CheckStem(w[..|w| - 1], lemmas))
    ensures StemNormalized(w, lemmas, lemmas, Exceptions, policy) == CheckStem(w[..|w| - 1], lemmas).found
  {
    YWordBases(w, lemmas);
    assert Bases(w, lemmas)[0] in Bases(w, lemmas);
    FirstBaseHits(w, lemmas, lemmas, Exceptions, policy);
  }

  /** With "ауыз" as the only lemma, "аузы" stems to "ауыз" under every
      early-return policy. */
  lemma AuzyStemsToAuyz(policy: Policy)
    ensures StemNormalized("аузы", {"ауыз"}, {"ауыз"}, Exceptions, policy) == "ауыз"
  {
    var w := "аузы";
    assert w[..|w| - 1] == "ауз";
    AuzyChecks();
    AuzyNotException();
    YWordStems(w, {"ауыз"}, policy);
  }

  /** "су" has no vowel from аоұыәеөүі, and the elision repair as written
      still restores ы in it. */
  lemma SuyChecks()
    ensures CheckStem("суы", {"сыу"}) == NotFound
    ensures CheckStem("су", {"сыу"}) == Elided("сыу")
  {
    assert LastHarmonyVowel("суы") == Some(2);
    assert InsertBeforeLast("суы", 'ы') == "суыы";
    assert NoHarmonyVowel("су");
    assert InsertBeforeLast("су", 'ы') == "сыу";
  }

  /** With "сыу" as the only lemma, "суы" stems to "сыу" under every
      early-return policy, through the vowel-less base "су". */
  lemma SuyStemsToSyu(policy: Policy)
    ensures StemNormalized("суы", {"сыу"}, {"сыу"}, Exceptions, policy) == "сыу"
  {
    var w := "суы";
    assert w[..|w| - 1] == "су";
    SuyChecks();
    assert w !in Exceptions by {
      assert |w| != |"абай"| && |w| != |"және"| && |w| != |"алматы"| && |w| != |"туралы"|;
    }
    YWordStems(w, {"сыу"}, policy);
  }
}
