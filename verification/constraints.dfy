/** The admissibility test a case suffix must pass before it is stripped:
    the accusative ны/ні only after a vowel, the dative а/е only after a
    possessive tail. Every other suffix, and every suffix of another group,
    is unconstrained here. */
module Constraints {
  import opened Text
  import opened Suffixes

  predicate IsAccusativeN(suffix: string) {
    suffix == "ны" || suffix == "ні"
  }

  predicate IsBareDative(suffix: string) {
    suffix == "а" || suffix == "е"
  }

  /** The four possessive tails the dative а/е may follow. */
  predicate HasPossessiveTail(base: string) {
    EndsWith(base, "ы") || EndsWith(base, "і") || EndsWith(base, "сы") || EndsWith(base, "сі")
  }

  /** The tails сы and сі add nothing: both already end in ы or і. */
  lemma PossessiveTailIsFinalVowel(base: string)
    ensures HasPossessiveTail(base) <==> base != [] && base[|base| - 1] in {'ы', 'і'}
  {
    if base != [] {
      var last := base[|base| - 1];
      assert EndsWith(base, "ы") <==> last == 'ы' by {
        assert base[|base| - 1..] == [last];
      }
      assert EndsWith(base, "і") <==> last == 'і' by {
        assert base[|base| - 1..] == [last];
      }
      if |base| >= 2 {
        assert base[|base| - 2..][1] == last;
      }
    }
  }

  /** Whether a case suffix may be stripped from `word`: ны/ні only when
      the letter before it is a vowel, а/е only when the letter before it
      is ы or і, any other suffix always. */
  function CanUseCaseSuffix(word: string, suffix: string): (r: bool)
    ensures IsAccusativeN(suffix) ==> (r <==> |word| >= 3 && word[|word| - 3] in Vowels)
    ensures IsBareDative(suffix) ==> (r <==> |word| >= 2 && word[|word| - 2] in {'ы', 'і'})
    ensures !IsAccusativeN(suffix) && !IsBareDative(suffix) ==> r
  {
    if IsAccusativeN(suffix) then
      assert |suffix| == 2;
      if |word| < |suffix| + 1 then false
      else word[|word| - |suffix| - 1] in Vowels
    else if IsBareDative(suffix) then
      assert |suffix| == 1;
      PossessiveTailIsFinalVowel(CutTail(word, |suffix|));
      HasPossessiveTail(CutTail(word, |suffix|))
    else
      true
  }

  /** ны/ні needs a vowel right before it, so a word of at least three
      letters. */
  lemma AccusativeNeedsVowel(word: string, suffix: string)
    requires IsAccusativeN(suffix)
    ensures EndsWith(word, suffix) ==>
      var base := CutTail(word, 2);
      (CanUseCaseSuffix(word, suffix) <==> base != [] && base[|base| - 1] in Vowels)
    ensures CanUseCaseSuffix(word, suffix) ==> |word| >= 3
  {
    assert |suffix| == 2;
  }

  /** а/е needs a base ending in ы or і (which covers сы and сі). */
  lemma DativeNeedsPossessive(word: string, suffix: string)
    requires IsBareDative(suffix)
    ensures var base := CutTail(word, 1);
      CanUseCaseSuffix(word, suffix) <==> base != [] && base[|base| - 1] in {'ы', 'і'}
  {
    assert |suffix| == 1;
    PossessiveTailIsFinalVowel(CutTail(word, 1));
  }

  /** The constraint: ны/ні only after a vowel, а/е only after a
      possessive tail, every other suffix allowed. */
  lemma CanUseCaseSuffixSpec(word: string, suffix: string)
    ensures IsAccusativeN(suffix) && EndsWith(word, suffix) ==>
      var base := CutTail(word, 2);
      (CanUseCaseSuffix(word, suffix) <==> base != [] && base[|base| - 1] in Vowels)
    ensures IsAccusativeN(suffix) && CanUseCaseSuffix(word, suffix) ==> |word| >= 3
    ensures IsBareDative(suffix) ==>
      var base := CutTail(word, 1);
      (CanUseCaseSuffix(word, suffix) <==> base != [] && base[|base| - 1] in {'ы', 'і'})
    ensures !IsAccusativeN(suffix) && !IsBareDative(suffix) ==> CanUseCaseSuffix(word, suffix)
  {
    if IsAccusativeN(suffix) {
      AccusativeNeedsVowel(word, suffix);
    } else if IsBareDative(suffix) {
      DativeNeedsPossessive(word, suffix);
    }
  }
}
