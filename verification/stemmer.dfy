/** The stemmer proper: the backtracking search instantiated with the stem
    check and the suffix iterator, and the entry point that adds the
    exception list and the early-return policy. */
module Stemmer {
  import opened Wrappers
  import opened Text
  import opened Phonology
  import opened Iteration
  import opened Backtrack

  /** The depth the entry point starts the search with. */
  const TopDepth: nat := 4

  /** Words the stemmer must never change. */
  const Exceptions: set<string> := {"абай", "алматы", "туралы", "және"}

  /** The result of a check as the search uses it: Python's `if hit:`. */
  function Hit(c: StemCheck): (r: Option<string>)
    ensures r.Some? <==> IsHit(c)
    ensures r.Some? ==> r.value == c.found && r.value != []
  {
    if IsHit(c) then Some(c.found) else None
  }

  /** The bases `word[:-len(sfx)]` of the given candidates, in order. */
  function BasesOf(word: string, cands: seq<Candidate>): (r: seq<string>)
    ensures |r| == |cands|
    ensures forall i :: 0 <= i < |r| ==> r[i] == CutTail(word, |cands[i].suffix|)
  {
    if cands == [] then [] else [CutTail(word, |cands[0].suffix|)] + BasesOf(word, cands[1..])
  }

  /** What the search walks below `word`: the base of every candidate the
      iterator offers, with the safeguard on. */
  function Bases(word: string, global: set<string>): (r: seq<string>)
    ensures |r| == |Candidates(word, true, global)|
    ensures forall i :: 0 <= i < |r| ==>
      r[i] + Candidates(word, true, global)[i].suffix == word && |r[i]| < |word|
  {
    var cands := Candidates(word, true, global);
    var r := BasesOf(word, cands);
    assert forall i :: 0 <= i < |r| ==> r[i] + cands[i].suffix == word && |r[i]| < |word| by {
      forall i | 0 <= i < |r|
        ensures r[i] + cands[i].suffix == word && |r[i]| < |word|
      {
        assert cands[i] in cands;
        CandidateShortens(word, true, global, cands[i]);
      }
    }
    r
  }

  /** Every base is what is left of the word after one admissible suffix,
      so it is a strictly shorter prefix of it. */
  lemma BasesShorten(word: string, global: set<string>, b: string)
    ensures b in Bases(word, global) ==>
      && |b| < |word| && StartsWith(word, b)
      && exists c :: c in Candidates(word, true, global) && b + c.suffix == word
  {
    if b in Bases(word, global) {
      var cands := Candidates(word, true, global);
      var i :| 0 <= i < |Bases(word, global)| && Bases(word, global)[i] == b;
      assert cands[i] in cands;
      CandidateShortens(word, true, global, cands[i]);
    }
  }

  function Check(lemmas: set<string>): string -> Option<string> {
    w => Hit(CheckStem(w, lemmas))
  }

  function Next(global: set<string>): string -> seq<string> {
    w => Bases(w, global)
  }

  /** `_search`: the word's own check first, then the candidates' bases. */
  function Search(word: string, lemmas: set<string>, global: set<string>, depth: nat, seen: set<string>)
    : (r: Visit)
    ensures r.found.Some? ==> r.found.value in lemmas && r.found.value != []
    ensures seen <= r.seen
    ensures IsHit(CheckStem(word, lemmas)) ==> r == Visit(Some(CheckStem(word, lemmas).found), seen)
    ensures word in seen && !IsHit(CheckStem(word, lemmas)) ==> r == Visit(None, seen)
    ensures depth == 0 ==> r == Visit(Hit(CheckStem(word, lemmas)), seen)
  {
    var r := Explore(word, Check(lemmas), Next(global), depth, seen);
    ExploreFound(word, Check(lemmas), Next(global), depth, seen);
    r
  }

  /** Everything the search reaches is a strictly shorter prefix of the
      word it started from. */
  lemma {:induction false} ReachesShortens(word: string, v: string, depth: nat, global: set<string>)
    ensures Reaches(word, v, depth, Next(global)) && v != word ==> |v| < |word| && StartsWith(word, v)
    decreases depth
  {
    if Reaches(word, v, depth, Next(global)) && v != word {
      var b :| b in Next(global)(word) && Reaches(b, v, depth - 1, Next(global));
      BasesShorten(word, global, b);
      if v != b {
        ReachesShortens(b, v, depth - 1, global);
        StartsWithTrans(word, b, v);
      }
    }
  }

  /** When a word that is already a lemma may be returned without a
      search. Any value of the setting other than the first two behaves
      as `Never`. */
  datatype Policy = Always | IfLooksUninflected | Never

  /** The entry point, given the already normalised (lower-cased, NFC)
      word. */
  function StemNormalized(w: string, lemmas: set<string>, global: set<string>, exceptions: set<string>, policy: Policy)
    : (r: string)
    ensures w in exceptions ==> r == w
    ensures r == w || (r in lemmas && r != [])
  {
    if w in exceptions then w
    else if w in lemmas && (policy == Always || (policy == IfLooksUninflected && !LooksInflected(w))) then w
    else
      var v := Search(w, lemmas, global, TopDepth, {});
      if v.found.Some? then v.found.value else w
  }

  /** The stemmer: normalise, then stem. The normalisation (`nfc` of
      `lower()`) is a parameter. */
  function StemKazakhWord(
    word: string, normalize: string -> string, lemmas: set<string>, global: set<string>,
    exceptions: set<string>, policy: Policy): (r: string)
    ensures normalize(word) in exceptions ==> r == normalize(word)
    ensures r == normalize(word) || (r in lemmas && r != [])
    ensures lemmas == {} ==> r == normalize(word)
  {
    StemNormalized(normalize(word), lemmas, global, exceptions, policy)
  }

  /** A lemma always comes back unchanged, under every policy: the search
      checks the word itself before stripping anything, so the policy only
      decides whether that check happens inside or outside the search. */
  lemma LemmaIsFixedPoint(w: string, lemmas: set<string>, global: set<string>, exceptions: set<string>, policy: Policy)
    requires w in lemmas
    ensures StemNormalized(w, lemmas, global, exceptions, policy) == w
  {
    if w == [] {
      assert Bases(w, global) == [] by {
        if Bases(w, global) != [] {
          BasesShorten(w, global, Bases(w, global)[0]);
        }
      }
      assert Search(w, lemmas, global, TopDepth, {}).found == None;
    }
  }

  /** Stemming a result again changes nothing, provided the normalisation
      leaves the result as it is. */
  lemma StemIdempotent(
    word: string, normalize: string -> string, lemmas: set<string>, global: set<string>,
    exceptions: set<string>, policy: Policy)
    requires normalize(StemKazakhWord(word, normalize, lemmas, global, exceptions, policy))
      == StemKazakhWord(word, normalize, lemmas, global, exceptions, policy)
    ensures var r := StemKazakhWord(word, normalize, lemmas, global, exceptions, policy);
      StemKazakhWord(r, normalize, lemmas, global, exceptions, policy) == r
  {
    var r := StemKazakhWord(word, normalize, lemmas, global, exceptions, policy);
    if r != normalize(word) {
      LemmaIsFixedPoint(r, lemmas, global, exceptions, policy);
    }
  }

  /** A result other than the normalised word is the check of a word the
      search reached from it within `TopDepth` strips, and that word is a
      strictly shorter prefix unless it is the word itself. */
  lemma StemSound(
    word: string, normalize: string -> string, lemmas: set<string>, global: set<string>,
    exceptions: set<string>, policy: Policy)
    ensures var w, r := normalize(word), StemKazakhWord(word, normalize, lemmas, global, exceptions, policy);
      r != w ==> exists v :: Reaches(w, v, TopDepth, Next(global)) && Hit(CheckStem(v, lemmas)) == Some(r)
  {
    ExploreFound(normalize(word), Check(lemmas), Next(global), TopDepth, {});
  }
}
