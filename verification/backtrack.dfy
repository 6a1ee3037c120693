/** The bounded backtracking search of the stemmer, stated for any stem
    check and any way of listing the bases a word can be cut back to.

    A call checks the word itself first, and only then stops on an
    exhausted depth or an already-seen word; otherwise it marks the word
    as seen and walks its bases in order: each base is checked, then
    searched one level deeper, and the first hit ends the whole search.
    The seen-set is shared by the whole top-level call (a word expanded in
    one branch is not expanded again in a later sibling branch), so it is
    threaded through the calls and handed back with the result. */
module Backtrack {
  import opened Wrappers

  /** The outcome of one call: the hit, if any, and the seen-set as the
      call leaves it. */
  datatype Visit = Visit(found: Option<string>, seen: set<string>)

  function Explore(
    word: string, check: string -> Option<string>, next: string -> seq<string>,
    depth: nat, seen: set<string>): (r: Visit)
    ensures seen <= r.seen
    ensures check(word).Some? ==> r == Visit(check(word), seen)
    ensures check(word).None? && (depth == 0 || word in seen) ==> r == Visit(None, seen)
    decreases depth, 1
  {
    var hit := check(word);
    if hit.Some? then Visit(hit, seen)
    else if depth == 0 || word in seen then Visit(None, seen)
    else ExploreBases(next(word), check, next, depth, seen + {word})
  }

  /** The loop over the bases of one word. */
  function ExploreBases(
    bases: seq<string>, check: string -> Option<string>, next: string -> seq<string>,
    depth: nat, seen: set<string>): (r: Visit)
    requires depth > 0
    ensures seen <= r.seen
    decreases depth, 0, |bases|
  {
    if bases == [] then Visit(None, seen)
    else
      var hit := check(bases[0]);
      if hit.Some? then Visit(hit, seen)
      else
        var sub := Explore(bases[0], check, next, depth - 1, seen);
        if sub.found.Some? then sub
        else ExploreBases(bases[1..], check, next, depth, sub.seen)
  }

  /** `v` is `word`, or is reached from it by at most `depth` steps from a
      word to one of its bases. */
  ghost predicate Reaches(word: string, v: string, depth: nat, next: string -> seq<string>)
    decreases depth
  {
    || v == word
    || (depth > 0 && exists b :: b in next(word) && Reaches(b, v, depth - 1, next))
  }

  /** Whatever the search returns is the check of a word it reached; `v`
      is that word. */
  lemma {:induction false} ExploreSound(
    word: string, check: string -> Option<string>, next: string -> seq<string>,
    depth: nat, seen: set<string>) returns (v: string)
    ensures var r := Explore(word, check, next, depth, seen);
      r.found.Some? ==> Reaches(word, v, depth, next) && check(v) == r.found
    decreases depth, 1
  {
    v := word;
    var r := Explore(word, check, next, depth, seen);
    if r.found.Some? && check(word).None? {
      v := ExploreBasesSound(word, next(word), check, next, depth, seen + {word});
    }
  }

  lemma {:induction false} ExploreBasesSound(
    word: string, bases: seq<string>, check: string -> Option<string>, next: string -> seq<string>,
    depth: nat, seen: set<string>) returns (v: string)
    requires depth > 0
    requires forall b :: b in bases ==> b in next(word)
    ensures var r := ExploreBases(bases, check, next, depth, seen);
      r.found.Some? ==> Reaches(word, v, depth, next) && check(v) == r.found
    decreases depth, 0, |bases|
  {
    v := word;
    if bases != [] {
      var b := bases[0];
      assert b in bases;
      if check(b).Some? {
        v := b;
        assert Reaches(b, b, depth - 1, next);
      } else {
        var sub := Explore(b, check, next, depth - 1, seen);
        if sub.found.Some? {
          v := ExploreSound(b, check, next, depth - 1, seen);
        } else {
          v := ExploreBasesSound(word, bases[1..], check, next, depth, sub.seen);
        }
      }
    }
  }

  /** The same, with the reached word left implicit. */
  lemma ExploreFound(
    word: string, check: string -> Option<string>, next: string -> seq<string>,
    depth: nat, seen: set<string>)
    ensures var r := Explore(word, check, next, depth, seen);
      r.found.Some? ==> exists v :: Reaches(word, v, depth, next) && check(v) == r.found
  {
    var v := ExploreSound(word, check, next, depth, seen);
  }

  /** A search that checks nothing successfully finds nothing. */
  lemma ExploreMisses(
    word: string, check: string -> Option<string>, next: string -> seq<string>,
    depth: nat, seen: set<string>)
    requires forall w :: check(w).None?
    ensures Explore(word, check, next, depth, seen).found.None?
  {
    ExploreFound(word, check, next, depth, seen);
  }
}
