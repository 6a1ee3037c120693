/** The few Python `str` operations the stemmer and the data scripts rely
    on, over `string` (a `seq<char>`): `endswith`/`startswith`, the
    negative slice `s[:-n]`, `strip()` and the argument-less `split()`. */
module Text {

  /** The characters `str.isspace()` accepts; `strip()` and `split()` with
      no argument remove exactly these. */
  predicate IsSpace(c: char) {
    || '\U{9}' <= c <= '\U{D}'
    || '\U{1C}' <= c <= '\U{20}'
    || c == '\U{85}' || c == '\U{A0}' || c == '\U{1680}'
    || '\U{2000}' <= c <= '\U{200A}'
    || c == '\U{2028}' || c == '\U{2029}' || c == '\U{202F}' || c == '\U{205F}' || c == '\U{3000}'
  }

  predicate AllSpace(s: string) {
    forall k :: 0 <= k < |s| ==> IsSpace(s[k])
  }

  /** A non-empty run of non-space characters: one field of `split()`. */
  predicate IsWord(t: string) {
    t != [] && forall k :: 0 <= k < |t| ==> !IsSpace(t[k])
  }

  /** What `strip()` leaves: no space at either end. */
  predicate IsStripped(s: string) {
    s == [] || (!IsSpace(s[0]) && !IsSpace(s[|s| - 1]))
  }

  predicate EndsWith(s: string, suffix: string) {
    |suffix| <= |s| && s[|s| - |suffix|..] == suffix
  }

  predicate StartsWith(s: string, prefix: string) {
    |prefix| <= |s| && s[..|prefix|] == prefix
  }

  lemma StartsWithTrans(a: string, b: string, c: string)
    requires StartsWith(a, b) && StartsWith(b, c)
    ensures StartsWith(a, c)
  {
    assert a[..|b|][..|c|] == a[..|c|];
  }

  /** Python's `s[:-n]`. Note that `s[:-0]` is `s[:0]`, the empty string. */
  function CutTail(s: string, n: nat): (r: string)
    ensures |r| <= |s| && r == s[..|r|]
    ensures 0 < n <= |s| ==> |r| == |s| - n
    ensures n == 0 || n >= |s| ==> r == []
  {
    if 0 < n <= |s| then s[..|s| - n] else []
  }

  /** Cutting a non-empty suffix the string ends with gives back the part
      that, followed by the suffix, is the whole string. */
  lemma CutTailEndsWith(s: string, suffix: string)
    requires suffix != [] && EndsWith(s, suffix)
    ensures CutTail(s, |suffix|) + suffix == s
    ensures |CutTail(s, |suffix|)| < |s|
  {
  }

  function TrimStart(s: string): (r: string)
    ensures |r| <= |s| && r == s[|s| - |r|..]
    ensures forall k :: 0 <= k < |s| - |r| ==> IsSpace(s[k])
    ensures r == [] || !IsSpace(r[0])
    decreases |s|
  {
    if s != [] && IsSpace(s[0]) then TrimStart(s[1..]) else s
  }

  function TrimEnd(s: string): (r: string)
    ensures |r| <= |s| && r == s[..|r|]
    ensures forall k :: |r| <= k < |s| ==> IsSpace(s[k])
    ensures r == [] || !IsSpace(r[|r| - 1])
    decreases |s|
  {
    if s != [] && IsSpace(s[|s| - 1]) then TrimEnd(s[..|s| - 1]) else s
  }

  /** `s` is `r` with only whitespace around it: `r` is the slice
      `s[i..i + |r|]`, and everything before and after it is space. */
  ghost predicate PaddedBy(s: string, r: string, i: int) {
    && 0 <= i <= |s| - |r|
    && r == s[i..i + |r|]
    && AllSpace(s[..i])
    && AllSpace(s[i + |r|..])
  }

  /** Python's `str.strip()` with no argument: the leading and trailing
      whitespace removed, and nothing else. */
  function Strip(s: string): (r: string)
    ensures IsStripped(r)
    ensures r == [] <==> AllSpace(s)
    ensures exists i :: PaddedBy(s, r, i)
  {
    var t := TrimStart(s);
    var r := TrimEnd(t);
    StripPadded(s, t, r);
    r
  }

  /** Space cut from the front of `s` to give `t`, then from the back of
      `t` to give `r`, leaves `r` stripped and padded by space inside `s`. */
  lemma StripPadded(s: string, t: string, r: string)
    requires |t| <= |s| && t == s[|s| - |t|..]
    requires forall k :: 0 <= k < |s| - |t| ==> IsSpace(s[k])
    requires t == [] || !IsSpace(t[0])
    requires |r| <= |t| && r == t[..|r|]
    requires forall k :: |r| <= k < |t| ==> IsSpace(t[k])
    requires r == [] || !IsSpace(r[|r| - 1])
    ensures IsStripped(r)
    ensures r == [] <==> AllSpace(s)
    ensures PaddedBy(s, r, |s| - |t|)
  {
    var i := |s| - |t|;
    assert s[i..] == t;
    var front, mid, back := s[..i], s[i..i + |r|], s[i + |r|..];
    assert mid == r by {
      forall k | 0 <= k < |r|
        ensures mid[k] == r[k]
      {
        assert mid[k] == t[k];
      }
    }
    assert AllSpace(front) by {
      forall k | 0 <= k < |front|
        ensures IsSpace(front[k])
      {
        assert front[k] == s[k];
      }
    }
    assert AllSpace(back) by {
      forall k | 0 <= k < |back|
        ensures IsSpace(back[k])
      {
        assert back[k] == t[|r| + k];
      }
    }
    if r != [] {
      assert r[0] == t[0] == s[i];
    } else {
      assert AllSpace(t);
      assert front == s;
    }
  }

  /** `strip()` only removes characters: whatever is left was in the
      input. */
  lemma StripKeeps(s: string, c: char)
    requires c in Strip(s)
    ensures c in s
  {
    var r := Strip(s);
    var i :| PaddedBy(s, r, i);
    PaddedKeeps(s, r, i, c);
  }

  lemma PaddedKeeps(s: string, r: string, i: int, c: char)
    requires PaddedBy(s, r, i) && c in r
    ensures c in s
  {
    var k :| 0 <= k < |r| && r[k] == c;
    assert s[i + k] == r[k];
  }

  lemma StripAvoids(s: string, c: char)
    requires c !in s
    ensures c !in Strip(s)
  {
    if c in Strip(s) {
      StripKeeps(s, c);
    }
  }

  /** The text before the first `sep`, or all of `s` when there is none:
      `s.split(sep, 1)[0]`. */
  function Before(s: string, sep: char): (r: string)
    ensures StartsWith(s, r)
    ensures sep !in r
    ensures |r| < |s| ==> s[|r|] == sep
    decreases |s|
  {
    if s == [] || s[0] == sep then [] else [s[0]] + Before(s[1..], sep)
  }

  /** `strip()` leaves an already stripped string alone, so stripping twice
      is stripping once. */
  lemma StripStripped(s: string)
    requires IsStripped(s)
    ensures Strip(s) == s
  {
  }

  lemma StripIdempotent(s: string)
    ensures Strip(Strip(s)) == Strip(s)
  {
    StripStripped(Strip(s));
  }

  /** Length of the leading run of non-space characters. */
  function WordLength(s: string): (n: nat)
    ensures n <= |s|
    ensures forall k :: 0 <= k < n ==> !IsSpace(s[k])
    ensures n == |s| || IsSpace(s[n])
    decreases |s|
  {
    if s == [] || IsSpace(s[0]) then 0 else 1 + WordLength(s[1..])
  }

  /** The gaps and the fields, alternating: `gaps[0] + fields[0] + gaps[1]
      + ... + fields[n-1] + gaps[n]`. */
  function Interleave(gaps: seq<string>, fields: seq<string>): string
    requires |gaps| == |fields| + 1
    decreases |fields|
  {
    if fields == [] then gaps[0] else gaps[0] + fields[0] + Interleave(gaps[1..], fields[1..])
  }

  /** `s` cut into maximal runs of non-space characters (`fields`) and the
      whitespace between and around them (`gaps`): every gap is space,
      every field is a word, and two fields are never adjacent. */
  ghost predicate Layout(s: string, gaps: seq<string>, fields: seq<string>) {
    && |gaps| == |fields| + 1
    && (forall k :: 0 <= k < |gaps| ==> AllSpace(gaps[k]))
    && (forall k :: 0 < k < |fields| ==> gaps[k] != [])
    && (forall k :: 0 <= k < |fields| ==> IsWord(fields[k]))
    && s == Interleave(gaps, fields)
  }

  /** A leading space joins the first gap. */
  lemma LayoutSpace(c: char, t: string, gaps: seq<string>, fields: seq<string>)
    requires IsSpace(c) && Layout(t, gaps, fields)
    ensures Layout([c] + t, [[c] + gaps[0]] + gaps[1..], fields)
  {
    var g := [[c] + gaps[0]] + gaps[1..];
    assert g[1..] == gaps[1..];
    assert AllSpace(g[0]) by {
      assert forall k :: 0 < k < |g[0]| ==> g[0][k] == gaps[0][k - 1];
    }
    assert forall k :: 0 < k < |g| ==> g[k] == gaps[k];
  }

  /** A leading word, followed by space or nothing, becomes the first field
      after an empty gap. */
  lemma LayoutWord(w: string, t: string, gaps: seq<string>, fields: seq<string>)
    requires IsWord(w) && (t == [] || IsSpace(t[0])) && Layout(t, gaps, fields)
    ensures Layout(w + t, [[]] + gaps, [w] + fields)
  {
    var g, f := [[]] + gaps, [w] + fields;
    assert g[1..] == gaps && f[1..] == fields;
    assert forall k :: 0 < k < |g| ==> g[k] == gaps[k - 1];
    assert forall k :: 0 < k < |f| ==> f[k] == fields[k - 1];
  }

  /** Python's `str.split()` with no argument: the maximal runs of
      non-space characters, in order. */
  function Split(s: string): (parts: seq<string>)
    ensures parts == [] <==> AllSpace(s)
    ensures exists gaps :: Layout(s, gaps, parts)
    decreases |s|
  {
    if s == [] then
      assert Layout(s, [[]], []);
      []
    else if IsSpace(s[0]) then
      var parts := Split(s[1..]);
      SplitSpaceStep(s, parts);
      parts
    else
      var n := WordLength(s);
      var rest := Split(s[n..]);
      assert IsWord(s[..n]) by {
        assert forall k :: 0 <= k < n ==> s[..n][k] == s[k];
      }
      SplitWordStep(s, n, rest);
      [s[..n]] + rest
  }

  /** A leading space changes neither the fields nor whether all is space. */
  lemma SplitSpaceStep(s: string, parts: seq<string>)
    requires s != [] && IsSpace(s[0])
    requires exists gaps :: Layout(s[1..], gaps, parts)
    ensures AllSpace(s) <==> AllSpace(s[1..])
    ensures exists gaps :: Layout(s, gaps, parts)
  {
    assert forall k :: 0 < k < |s| ==> s[k] == s[1..][k - 1];
    var gaps :| Layout(s[1..], gaps, parts);
    LayoutSpace(s[0], s[1..], gaps, parts);
    assert [s[0]] + s[1..] == s;
  }

  /** A leading word becomes the first field. */
  lemma SplitWordStep(s: string, n: nat, rest: seq<string>)
    requires n <= |s| && IsWord(s[..n]) && (n == |s| || IsSpace(s[n]))
    requires exists gaps :: Layout(s[n..], gaps, rest)
    ensures exists gaps :: Layout(s, gaps, [s[..n]] + rest)
  {
    var gaps :| Layout(s[n..], gaps, rest);
    LayoutWord(s[..n], s[n..], gaps, rest);
    assert s[..n] + s[n..] == s;
  }

  /** Every field `split()` returns is a word. */
  lemma {:induction false} SplitWords(s: string)
    ensures forall i :: 0 <= i < |Split(s)| ==> IsWord(Split(s)[i])
    decreases |s|
  {
    if s == [] {
    } else if IsSpace(s[0]) {
      SplitWords(s[1..]);
    } else {
      var n := WordLength(s);
      SplitWords(s[n..]);
      var rest := Split(s[n..]);
      assert Split(s) == [s[..n]] + rest;
      forall i | 0 <= i < |Split(s)|
        ensures IsWord(Split(s)[i])
      {
        if i > 0 {
          assert Split(s)[i] == rest[i - 1];
        }
      }
    }
  }

  /** A single word splits into itself. */
  lemma SplitWord(s: string)
    requires IsWord(s)
    ensures Split(s) == [s]
  {
    assert WordLength(s) == |s|;
    assert s[..|s|] == s;
    assert Split(s[|s|..]) == Split([]) == [];
  }

  /** A function applied to every line, in order. */
  function MapLines<T>(lines: seq<string>, f: string -> T): (r: seq<T>)
    ensures |r| == |lines|
    ensures forall i :: 0 <= i < |lines| ==> r[i] == f(lines[i])
    decreases |lines|
  {
    if lines == [] then []
    else
      var rest := MapLines(lines[1..], f);
      assert forall i :: 0 < i < |lines| ==> lines[i] == lines[1..][i - 1];
      [f(lines[0])] + rest
  }

  /** Mapping distributes over concatenation. */
  lemma {:induction false} MapLinesAppend<T>(a: seq<string>, b: seq<string>, f: string -> T)
    ensures MapLines(a + b, f) == MapLines(a, f) + MapLines(b, f)
    decreases |a|
  {
    if a != [] {
      assert (a + b)[1..] == a[1..] + b;
      MapLinesAppend(a[1..], b, f);
    } else {
      assert a + b == b;
    }
  }
}
