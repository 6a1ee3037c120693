/** The stem extractor for Apertium `.lexc` files: a single pass over the
    lines that tracks the current `LEXICON` section and collects, inside
    the requested sections, the text before the colon of each entry. */
module Lexc {
  import opened Wrappers
  import opened Text

  /** How the pass reads one line, once stripped. */
  datatype LineKind =
    | Skip                          // blank, or a `#` comment
    | Header(name: Option<string>)  // a `LEXICON` line and its second field, if any
    | Entry(stem: string)           // a line with a colon: the stripped text before it
    | Other

  /** `p` is the text of `line` before its first colon. */
  predicate ColonPrefix(line: string, p: string) {
    ':' !in p && StartsWith(line, p + [':'])
  }

  /** `split(':', 1)[0]` of a line with a colon is the text before its
      first colon. */
  lemma BeforeColon(line: string)
    requires ':' in line
    ensures ColonPrefix(line, Before(line, ':'))
  {
    var p := Before(line, ':');
    assert line[..|p| + 1] == line[..|p|] + [line[|p|]];
  }

  /** How `parse_lexc` reads a line: blank lines and comments are skipped;
      a `LEXICON` line opens the section named by its second field, or no
      section when it has none; another line with a colon is an entry
      whose stem is the stripped text before the first colon. */
  function Classify(raw: string): (k: LineKind)
    ensures k.Skip? <==> Strip(raw) == [] || StartsWith(Strip(raw), "#")
    ensures k.Header? <==> !k.Skip? && StartsWith(Strip(raw), "LEXICON")
    ensures k.Header? ==>
      var parts := Split(Strip(raw));
      k.name == if |parts| >= 2 then Some(parts[1]) else None
    ensures k.Entry? <==> !k.Skip? && !k.Header? && ':' in Strip(raw)
    ensures k.Entry? ==> ':' !in k.stem && IsStripped(k.stem)
    ensures k.Entry? ==> exists p :: ColonPrefix(Strip(raw), p) && k.stem == Strip(p)
  {
    var line := Strip(raw);
    if line == [] || StartsWith(line, "#") then Skip
    else if StartsWith(line, "LEXICON") then
      var parts := Split(line);
      Header(if |parts| >= 2 then Some(parts[1]) else None)
    else if ':' in line then
      var before := Before(line, ':');
      StripAvoids(before, ':');
      BeforeColon(line);
      Entry(Strip(before))
    else Other
  }

  /** The section in force and the stems collected so far. */
  datatype State = State(section: Option<string>, stems: set<string>)

  /** A section name selects a section only when it is present and asked
      for; a header without a name selects nothing. */
  predicate Requested(section: Option<string>, lexicons: set<string>) {
    section.Some? && section.value in lexicons
  }

  /** One iteration of the loop, given how the line reads. */
  function Step(st: State, kind: LineKind, lexicons: set<string>): State {
    match kind
    case Skip => st
    case Header(name) => State(name, st.stems)
    case Entry(stem) =>
      if Requested(st.section, lexicons) && stem != [] then State(st.section, st.stems + {stem}) else st
    case Other => st
  }

  /** The loop over the lines, from no section and no stems. */
  function Run(kinds: seq<LineKind>, lexicons: set<string>): State
    decreases |kinds|
  {
    if kinds == [] then State(None, {})
    else Step(Run(kinds[..|kinds| - 1], lexicons), kinds[|kinds| - 1], lexicons)
  }

  /** Every line, classified. */
  function Kinds(lines: seq<string>): (ks: seq<LineKind>)
    ensures |ks| == |lines|
    ensures forall i :: 0 <= i < |lines| ==> ks[i] == Classify(lines[i])
  {
    MapLines(lines, Classify)
  }

  /** `parse_lexc` over the lines of the file. */
  function ParseLexc(lines: seq<string>, lexicons: set<string>): (r: set<string>)
    ensures forall s :: s in r <==>
      exists i :: 0 <= i < |lines| && Classify(lines[i]) == Entry(s) && s != []
        && Requested(SectionBefore(Kinds(lines), i), lexicons)
  {
    RunMembersAll(Kinds(lines), lexicons);
    Run(Kinds(lines), lexicons).stems
  }

  /** The section in force just before line `i`: the name of the nearest
      header above it, or none when there is no header above it. */
  function SectionBefore(kinds: seq<LineKind>, i: nat): Option<string>
    requires i <= |kinds|
    decreases i
  {
    if i == 0 then None
    else if kinds[i - 1].Header? then kinds[i - 1].name
    else SectionBefore(kinds, i - 1)
  }

  /** Lines below position `i` do not change what is in force there. */
  lemma {:induction false} SectionBeforePrefix(kinds: seq<LineKind>, n: nat, i: nat)
    requires i <= n <= |kinds|
    ensures SectionBefore(kinds[..n], i) == SectionBefore(kinds, i)
    decreases i
  {
    if i > 0 {
      assert kinds[..n][i - 1] == kinds[i - 1];
      SectionBeforePrefix(kinds, n, i - 1);
    }
  }

  /** The pass keeps track of the section exactly. */
  lemma {:induction false} RunSection(kinds: seq<LineKind>, lexicons: set<string>)
    ensures Run(kinds, lexicons).section == SectionBefore(kinds, |kinds|)
    decreases |kinds|
  {
    if kinds != [] {
      var n := |kinds| - 1;
      RunSection(kinds[..n], lexicons);
      SectionBeforePrefix(kinds, n, n);
    }
  }

  /** A stem is collected exactly when some entry inside a requested
      section yields it and it is not empty. */
  lemma {:induction false} RunMembers(kinds: seq<LineKind>, lexicons: set<string>, s: string)
    ensures s in Run(kinds, lexicons).stems <==>
      exists i :: 0 <= i < |kinds| && kinds[i] == Entry(s) && s != []
        && Requested(SectionBefore(kinds, i), lexicons)
    decreases |kinds|
  {
    if kinds != [] {
      var n := |kinds| - 1;
      var init := kinds[..n];
      RunMembers(init, lexicons, s);
      RunSection(init, lexicons);
      SectionBeforePrefix(kinds, n, n);
      if s in Run(init, lexicons).stems {
        var i :| 0 <= i < |init| && init[i] == Entry(s) && s != []
          && Requested(SectionBefore(init, i), lexicons);
        SectionBeforePrefix(kinds, n, i);
        assert kinds[i] == init[i];
      }
      if exists i :: 0 <= i < |kinds| && kinds[i] == Entry(s) && s != []
          && Requested(SectionBefore(kinds, i), lexicons) {
        var i :| 0 <= i < |kinds| && kinds[i] == Entry(s) && s != []
          && Requested(SectionBefore(kinds, i), lexicons);
        SectionBeforePrefix(kinds, n, i);
        if i < n {
          assert init[i] == kinds[i];
        }
      }
    }
  }

  lemma RunMembersAll(kinds: seq<LineKind>, lexicons: set<string>)
    ensures forall s :: s in Run(kinds, lexicons).stems <==>
      exists i :: 0 <= i < |kinds| && kinds[i] == Entry(s) && s != []
        && Requested(SectionBefore(kinds, i), lexicons)
  {
    forall s
      ensures s in Run(kinds, lexicons).stems <==>
        exists i :: 0 <= i < |kinds| && kinds[i] == Entry(s) && s != []
          && Requested(SectionBefore(kinds, i), lexicons)
    {
      RunMembers(kinds, lexicons, s);
    }
  }

  /** Every collected stem is non-empty, stripped and free of colons, and
      comes from a line that has a colon. */
  lemma ParseLexcStems(lines: seq<string>, lexicons: set<string>, s: string)
    ensures s in ParseLexc(lines, lexicons) ==>
      && s != [] && IsStripped(s) && ':' !in s
      && exists i :: 0 <= i < |lines| && Classify(lines[i]) == Entry(s) && ':' in Strip(lines[i])
           && exists p :: ColonPrefix(Strip(lines[i]), p) && s == Strip(p)
  {
    if s in ParseLexc(lines, lexicons) {
      var i :| 0 <= i < |lines| && Classify(lines[i]) == Entry(s) && s != []
        && Requested(SectionBefore(Kinds(lines), i), lexicons);
      var p :| ColonPrefix(Strip(lines[i]), p) && s == Strip(p);
    }
  }

  lemma {:induction false} NoHeaderNoSection(kinds: seq<LineKind>, i: nat)
    requires i <= |kinds|
    requires forall k :: 0 <= k < i ==> !kinds[k].Header?
    ensures SectionBefore(kinds, i) == None
    decreases i
  {
    if i > 0 {
      NoHeaderNoSection(kinds, i - 1);
    }
  }

  /** A file with no `LEXICON` line yields nothing. */
  lemma NoHeaderNoStems(lines: seq<string>, lexicons: set<string>)
    requires forall i :: 0 <= i < |lines| ==> !Classify(lines[i]).Header?
    ensures ParseLexc(lines, lexicons) == {}
  {
    forall s | s in ParseLexc(lines, lexicons)
      ensures false
    {
      var i :| 0 <= i < |lines| && Classify(lines[i]) == Entry(s) && s != []
        && Requested(SectionBefore(Kinds(lines), i), lexicons);
      NoHeaderNoSection(Kinds(lines), i);
    }
  }

  /** Lines with no header leave the pass where it started: no section,
      no stems, since an entry outside a section is not collected. */
  lemma {:induction false} NoHeaderStart(kinds: seq<LineKind>, lexicons: set<string>)
    requires forall k :: 0 <= k < |kinds| ==> !kinds[k].Header?
    ensures Run(kinds, lexicons) == State(None, {})
    decreases |kinds|
  {
    if kinds != [] {
      NoHeaderStart(kinds[..|kinds| - 1], lexicons);
    }
  }

  /** A pass that is back at its starting state runs on as if the lines
      before were not there. */
  lemma {:induction false} RunFromStart(a: seq<LineKind>, b: seq<LineKind>, lexicons: set<string>)
    requires Run(a, lexicons) == State(None, {})
    ensures Run(a + b, lexicons) == Run(b, lexicons)
    decreases |b|
  {
    if b == [] {
      assert a + b == a;
    } else {
      var init := b[..|b| - 1];
      RunFromStart(a, init, lexicons);
      assert (a + b)[..|a + b| - 1] == a + init;
    }
  }

  /** Lines before the first `LEXICON` line are ignored: whatever entries
      they hold, the result is that of the rest of the file. */
  lemma EntriesBeforeHeaderIgnored(pre: seq<string>, post: seq<string>, lexicons: set<string>)
    requires forall k :: 0 <= k < |pre| ==> !Classify(pre[k]).Header?
    ensures ParseLexc(pre + post, lexicons) == ParseLexc(post, lexicons)
  {
    KindsAppend(pre, post);
    NoHeaderStart(Kinds(pre), lexicons);
    RunFromStart(Kinds(pre), Kinds(post), lexicons);
  }

  /** A blank or comment line can be dropped from anywhere in the file
      without changing the result. */
  lemma {:induction false} SkipRemovable(a: seq<LineKind>, b: seq<LineKind>, lexicons: set<string>)
    ensures Run(a + [Skip] + b, lexicons) == Run(a + b, lexicons)
    decreases |b|
  {
    if b == [] {
      assert (a + [Skip] + b)[..|a|] == a;
      assert a + b == a;
    } else {
      var init := b[..|b| - 1];
      SkipRemovable(a, init, lexicons);
      assert (a + [Skip] + b)[..|a + [Skip] + b| - 1] == a + [Skip] + init;
      assert (a + b)[..|a + b| - 1] == a + init;
    }
  }

  lemma SkipLineRemovable(a: seq<string>, raw: string, b: seq<string>, lexicons: set<string>)
    requires Strip(raw) == [] || StartsWith(Strip(raw), "#")
    ensures ParseLexc(a + [raw] + b, lexicons) == ParseLexc(a + b, lexicons)
  {
    KindsAppend(a + [raw], b);
    KindsAppend(a, [raw]);
    KindsAppend(a, b);
    assert Kinds([raw]) == [Skip];
    SkipRemovable(Kinds(a), Kinds(b), lexicons);
  }

  lemma KindsAppend(a: seq<string>, b: seq<string>)
    ensures Kinds(a + b) == Kinds(a) + Kinds(b)
  {
    MapLinesAppend(a, b, Classify);
  }
}
