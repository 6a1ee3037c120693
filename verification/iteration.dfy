/** The suffix iterator: which suffixes may be stripped from a word, and in
    which order they are tried. Groups come in the order PRED, CASE, POSS,
    PLUR; within a group the longest suffix comes first. A candidate must
    end the word, pass the case constraint when it is a case suffix, and
    (when the safeguard is on) survive the single-vowel safeguard. */
module Iteration {
  import opened Text
  import opened LengthSort
  import opened Suffixes
  import opened Phonology
  import opened Constraints

  datatype Candidate = Candidate(group: Group, suffix: string)

  /** The single-vowel safeguard: a one-letter vowel suffix is held back
      when the word is itself a known lemma and the base left after
      stripping it does not resolve to one, neither directly, nor after
      undoing mutation, nor after restoring a vowel. Both tests consult
      `global`, the module-wide lemma set, not the lemma set the search
      was given. */
  predicate SafeguardSkips(word: string, suffix: string, global: set<string>): (r: bool)
    ensures r <==>
      && |suffix| == 1
      && suffix[0] in Vowels
      && word in global
      && CutTail(word, 1) !in global
      && (forall m :: MutationOf(CutTail(word, 1), m) ==> m !in global)
      && (forall e :: ElisionAsWrittenOf(CutTail(word, 1), e) ==> e !in global)
  {
    if |suffix| == 1 then
      SafeguardBase(CutTail(word, 1), global);
      suffix[0] in Vowels && word in global && CheckStem(CutTail(word, 1), global).NotFound?
    else false
  }

  /** The check of a base finds nothing exactly when neither the base, nor
      its devoiced form, nor its restored form is a lemma. */
  lemma SafeguardBase(base: string, global: set<string>)
    ensures CheckStem(base, global).NotFound? <==>
      && base !in global
      && (forall m :: MutationOf(base, m) ==> m !in global)
      && (forall e :: ElisionAsWrittenOf(base, e) ==> e !in global)
  {
    CheckStemPrecedence(base, global);
  }

  predicate Admissible(word: string, g: Group, suffix: string, safeguard: bool, global: set<string>) {
    && EndsWith(word, suffix)
    && (g == Case ==> CanUseCaseSuffix(word, suffix))
    && !(safeguard && SafeguardSkips(word, suffix, global))
  }

  /** Group order first, then non-increasing suffix length. */
  predicate InIterationOrder(cs: seq<Candidate>) {
    forall i, j :: 0 <= i < j < |cs| ==>
      || Rank(cs[i].group) < Rank(cs[j].group)
      || (cs[i].group == cs[j].group && |cs[i].suffix| >= |cs[j].suffix|)
  }

  /** The suffixes of `suffixes` that `keep` accepts for group `g`, tagged
      with `g`, in the order given. */
  function Matching(g: Group, suffixes: seq<string>, keep: (Group, string) -> bool): (r: seq<Candidate>)
    ensures forall c :: c in r <==> c.group == g && c.suffix in suffixes && keep(g, c.suffix)
    ensures forall i :: 0 <= i < |r| ==> r[i].group == g
    decreases |suffixes|
  {
    if suffixes == [] then []
    else
      var rest := Matching(g, suffixes[1..], keep);
      assert suffixes == [suffixes[0]] + suffixes[1..];
      if keep(g, suffixes[0]) then [Candidate(g, suffixes[0])] + rest else rest
  }

  /** Putting a candidate in front keeps the order when everything after
      it is of its group and no longer. */
  lemma ConsOrder(x: Candidate, rest: seq<Candidate>)
    requires InIterationOrder(rest)
    requires forall c :: c in rest ==> c.group == x.group && |c.suffix| <= |x.suffix|
    ensures InIterationOrder([x] + rest)
  {
    var r := [x] + rest;
    forall i, j | 0 <= i < j < |r|
      ensures
        || Rank(r[i].group) < Rank(r[j].group)
        || (r[i].group == r[j].group && |r[i].suffix| >= |r[j].suffix|)
    {
      assert r[j] == rest[j - 1];
      if i > 0 {
        assert r[i] == rest[i - 1];
      } else {
        assert rest[j - 1] in rest;
      }
    }
  }

  /** Filtering keeps the order of a longest-first list. */
  lemma {:induction false} MatchingOrder(g: Group, suffixes: seq<string>, keep: (Group, string) -> bool)
    requires SortedByLengthDesc(suffixes)
    ensures InIterationOrder(Matching(g, suffixes, keep))
    decreases |suffixes|
  {
    if suffixes != [] {
      var tail := suffixes[1..];
      assert SortedByLengthDesc(tail) by {
        assert forall i :: 0 <= i < |tail| ==> tail[i] == suffixes[i + 1];
      }
      MatchingOrder(g, tail, keep);
      var rest := Matching(g, tail, keep);
      if keep(g, suffixes[0]) {
        forall c | c in rest
          ensures c.group == g && |c.suffix| <= |suffixes[0]|
        {
          var k :| 0 <= k < |tail| && tail[k] == c.suffix;
          assert tail[k] == suffixes[k + 1];
        }
        ConsOrder(Candidate(g, suffixes[0]), rest);
      }
    }
  }

  /** One pass of the group loop: the group's suffixes longest first. */
  function GroupPass(g: Group, keep: (Group, string) -> bool): (r: seq<Candidate>)
    ensures forall c :: c in r <==> c.group == g && c.suffix in GroupSuffixes(g) && keep(g, c.suffix)
    ensures forall i :: 0 <= i < |r| ==> r[i].group == g
    ensures InIterationOrder(r)
  {
    MatchingOrder(g, OrderedSuffixes(g), keep);
    Matching(g, OrderedSuffixes(g), keep)
  }

  /** Candidates of groups ranked in `[lo, n)` followed by candidates of
      groups ranked `n` or later stay in iteration order. */
  lemma OrderConcat(a: seq<Candidate>, b: seq<Candidate>, lo: nat, n: nat)
    requires InIterationOrder(a) && InIterationOrder(b) && lo <= n
    requires forall i :: 0 <= i < |a| ==> lo <= Rank(a[i].group) < n
    requires forall j :: 0 <= j < |b| ==> n <= Rank(b[j].group)
    ensures InIterationOrder(a + b)
    ensures forall k :: 0 <= k < |a + b| ==> lo <= Rank((a + b)[k].group)
  {
    var ab := a + b;
    forall i, j | 0 <= i < j < |ab|
      ensures
        || Rank(ab[i].group) < Rank(ab[j].group)
        || (ab[i].group == ab[j].group && |ab[i].suffix| >= |ab[j].suffix|)
    {
      if j < |a| {
        assert ab[i] == a[i] && ab[j] == a[j];
      } else if i >= |a| {
        assert ab[i] == b[i - |a|] && ab[j] == b[j - |a|];
      } else {
        assert ab[i] == a[i] && ab[j] == b[j - |a|];
      }
    }
    forall k | 0 <= k < |ab|
      ensures lo <= Rank(ab[k].group)
    {
      if k >= |a| {
        assert ab[k] == b[k - |a|];
      }
    }
  }

  /** A candidate can only come from the pass over its own group. */
  lemma GroupPassDisjoint(keep: (Group, string) -> bool, c: Candidate)
    ensures c in GroupPass(Pred, keep) ==> c.group == Pred
    ensures c in GroupPass(Case, keep) ==> c.group == Case
    ensures c in GroupPass(Poss, keep) ==> c.group == Poss
    ensures c in GroupPass(Plur, keep) ==> c.group == Plur
    ensures c in GroupPass(c.group, keep) <==> c.suffix in GroupSuffixes(c.group) && keep(c.group, c.suffix)
  {
  }

  /** The four group passes in group order, for any per-suffix filter. */
  function Iterate(keep: (Group, string) -> bool): seq<Candidate> {
    GroupPass(Pred, keep) + (GroupPass(Case, keep) + (GroupPass(Poss, keep) + GroupPass(Plur, keep)))
  }

  /** The iterator yields exactly the table suffixes the filter keeps... */
  lemma IterateMembers(keep: (Group, string) -> bool, c: Candidate)
    ensures c in Iterate(keep) <==> c.suffix in GroupSuffixes(c.group) && keep(c.group, c.suffix)
  {
    GroupPassDisjoint(keep, c);
  }

  /** ... group by group, longest first within a group. */
  lemma IterateOrder(keep: (Group, string) -> bool)
    ensures InIterationOrder(Iterate(keep))
  {
    FourPassOrder(GroupPass(Pred, keep), GroupPass(Case, keep), GroupPass(Poss, keep), GroupPass(Plur, keep));
  }

  /** Four ordered passes, one per group, joined in group order. */
  lemma FourPassOrder(pred: seq<Candidate>, cas: seq<Candidate>, poss: seq<Candidate>, plur: seq<Candidate>)
    requires InIterationOrder(pred) && InIterationOrder(cas)
    requires InIterationOrder(poss) && InIterationOrder(plur)
    requires forall i :: 0 <= i < |pred| ==> pred[i].group == Pred
    requires forall i :: 0 <= i < |cas| ==> cas[i].group == Case
    requires forall i :: 0 <= i < |poss| ==> poss[i].group == Poss
    requires forall i :: 0 <= i < |plur| ==> plur[i].group == Plur
    ensures InIterationOrder(pred + (cas + (poss + plur)))
  {
    OrderConcat(poss, plur, Rank(Poss), Rank(Plur));
    OrderConcat(cas, poss + plur, Rank(Case), Rank(Poss));
    OrderConcat(pred, cas + (poss + plur), Rank(Pred), Rank(Case));
  }

  /** Everything the iterator yields for `word`, in the order it yields it. */
  function Candidates(word: string, safeguard: bool, global: set<string>): (r: seq<Candidate>)
    ensures forall c :: c in r <==>
      c.suffix in GroupSuffixes(c.group) && Admissible(word, c.group, c.suffix, safeguard, global)
    ensures InIterationOrder(r)
  {
    var keep := (g, s) => Admissible(word, g, s, safeguard, global);
    IterateOrder(keep);
    assert forall c :: c in Iterate(keep) <==> c.suffix in GroupSuffixes(c.group) && keep(c.group, c.suffix) by {
      forall c
        ensures c in Iterate(keep) <==> c.suffix in GroupSuffixes(c.group) && keep(c.group, c.suffix)
      {
        IterateMembers(keep, c);
      }
    }
    Iterate(keep)
  }

  /** Each candidate names a real suffix of the word, so stripping it
      leaves a strictly shorter prefix. */
  lemma CandidateShortens(word: string, safeguard: bool, global: set<string>, c: Candidate)
    ensures c in Candidates(word, safeguard, global) ==>
      && |c.suffix| > 0 && EndsWith(word, c.suffix)
      && |CutTail(word, |c.suffix|)| < |word|
      && CutTail(word, |c.suffix|) + c.suffix == word
  {
    if c in Candidates(word, safeguard, global) {
      CutTailEndsWith(word, c.suffix);
    }
  }

  /** The inflection probe: the iterator with the safeguard off yields
      something. With the safeguard off no lemma set is consulted. */
  function LooksInflected(word: string): (r: bool)
    ensures r <==> exists g, s :: s in GroupSuffixes(g) && Admissible(word, g, s, false, {})
  {
    var cs := Candidates(word, false, {});
    assert cs != [] ==> cs[0] in cs;
    assert forall g, s :: s in GroupSuffixes(g) && Admissible(word, g, s, false, {}) ==> Candidate(g, s) in cs;
    cs != []
  }
}
