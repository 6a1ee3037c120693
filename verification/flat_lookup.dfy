/** The flat-lookup stemmer: a list of endings gathered from a JSON file,
    cleaned, deduplicated and ordered longest first, and a greedy loop
    that strips the first applicable ending again and again until a known
    stem appears or nothing more can be stripped. */
module FlatLookup {
  import opened Text
  import opened LengthSort

  /** A value as `json.load` returns it. An object holds its entries in
      document order, one per key. */
  datatype Json =
    | Null
    | Bool(b: bool)
    | Number(n: int)
    | Str(s: string)
    | Arr(items: seq<Json>)
    | Obj(entries: seq<(string, Json)>)

  /** The items of every list-valued entry, in entry order. */
  function ListValues(entries: seq<(string, Json)>): seq<Json>
    decreases |entries|
  {
    if entries == [] then []
    else
      var head := if entries[0].1.Arr? then entries[0].1.items else [];
      head + ListValues(entries[1..])
  }

  /** An object contributes the items of its list values, a list its own
      items, anything else nothing. */
  function Flatten(data: Json): seq<Json> {
    match data
    case Obj(entries) => ListValues(entries)
    case Arr(items) => items
    case _ => []
  }

  /** An item comes out of an object exactly when some entry's value is a
      list holding it. */
  lemma {:induction false} ListValuesMembers(entries: seq<(string, Json)>, x: Json)
    ensures x in ListValues(entries) <==>
      exists i :: 0 <= i < |entries| && entries[i].1.Arr? && x in entries[i].1.items
    decreases |entries|
  {
    if entries != [] {
      ListValuesMembers(entries[1..], x);
      var head := if entries[0].1.Arr? then entries[0].1.items else [];
      assert ListValues(entries) == head + ListValues(entries[1..]);
      if x in ListValues(entries[1..]) {
        var i :| 0 <= i < |entries[1..]| && entries[1..][i].1.Arr? && x in entries[1..][i].1.items;
        assert entries[i + 1] == entries[1..][i];
      }
      if exists i :: 0 <= i < |entries| && entries[i].1.Arr? && x in entries[i].1.items {
        var i :| 0 <= i < |entries| && entries[i].1.Arr? && x in entries[i].1.items;
        if i > 0 {
          assert entries[1..][i - 1] == entries[i];
        }
      }
    }
  }

  /** `[e.strip() for e in items if isinstance(e, str) and e.strip()]`. */
  function CleanEndings(items: seq<Json>): seq<string>
    decreases |items|
  {
    if items == [] then []
    else
      var head := if items[0].Str? && Strip(items[0].s) != [] then [Strip(items[0].s)] else [];
      head + CleanEndings(items[1..])
  }

  /** What `endings` holds after cleaning: the stripped text of a string
      item, when that is not empty. */
  ghost predicate CleanedFrom(items: seq<Json>, e: string) {
    exists s :: Str(s) in items && Strip(s) == e && e != []
  }

  lemma {:induction false} CleanEndingsMembers(items: seq<Json>, e: string)
    ensures e in CleanEndings(items) <==> CleanedFrom(items, e)
    decreases |items|
  {
    if items != [] {
      var x, tail := items[0], items[1..];
      CleanEndingsMembers(tail, e);
      assert items == [x] + tail;
      if e in CleanEndings(items) {
        if e in CleanEndings(tail) {
          var s :| Str(s) in tail && Strip(s) == e && e != [];
          assert Str(s) in items;
        } else {
          assert x == Str(x.s) && Strip(x.s) == e;
        }
      }
      if CleanedFrom(items, e) {
        var s :| Str(s) in items && Strip(s) == e && e != [];
        if Str(s) != x {
          assert Str(s) in tail;
        }
      }
    }
  }

  /** No element occurs twice. */
  ghost predicate NoDuplicates(xs: seq<string>) {
    forall x :: multiset(xs)[x] <= 1
  }

  /** The first occurrence of each element, in order: the role `set()`
      plays before the sort. */
  function Dedupe(xs: seq<string>): (r: seq<string>)
    ensures NoDuplicates(r)
    ensures forall x :: x in r <==> x in xs
    decreases |xs|
  {
    if xs == [] then []
    else
      var init, last := xs[..|xs| - 1], xs[|xs| - 1];
      var rest := Dedupe(init);
      assert xs == init + [last];
      if last in rest then rest
      else
        assert multiset(rest)[last] == 0;
        rest + [last]
  }

  /** The pure part of `sorting_endings_from_json`, given the parsed file:
      the endings come longest first, each once, each stripped and
      non-empty, and they are exactly the cleaned string items of the
      file. */
  function SortingEndings(data: Json): (r: seq<string>)
    ensures SortedByLengthDesc(r)
    ensures NoDuplicates(r)
    ensures forall e :: e in r ==> e != [] && IsStripped(e)
    ensures forall e :: e in r <==> CleanedFrom(Flatten(data), e)
  {
    var cleaned := CleanEndings(Flatten(data));
    var unique := Dedupe(cleaned);
    var r := SortByLength(unique);
    SortByLengthSorted(unique);
    SortByLengthPermutes(unique);
    assert forall e :: e in r <==> CleanedFrom(Flatten(data), e) by {
      forall e
        ensures e in r <==> CleanedFrom(Flatten(data), e)
      {
        CleanEndingsMembers(Flatten(data), e);
      }
    }
    r
  }

  /** The shortest stem the loop leaves standing. */
  const MinLen: nat := 2

  /** An ending takes effect on `w`: `w` ends with it, and what is left is
      either a known stem or long enough to keep. */
  predicate Applies(w: string, e: string, stems: set<string>) {
    EndsWith(w, e) && (CutTail(w, |e|) in stems || |CutTail(w, |e|)| >= MinLen)
  }

  /** What one pass of the `for` loop over the endings decides: return a
      known stem, continue with a shorter word, or stop. */
  datatype Pass = Found(stem: string) | Accept(next: string) | NoStrip

  /** The effect of an ending that applies. */
  function Outcome(w: string, e: string, stems: set<string>): Pass {
    if CutTail(w, |e|) in stems then Found(CutTail(w, |e|)) else Accept(CutTail(w, |e|))
  }

  function ScanEndings(w: string, endings: seq<string>, stems: set<string>): (p: Pass)
    ensures p.Found? ==> p.stem in stems && StartsWith(w, p.stem)
    ensures p.Accept? ==> MinLen <= |p.next| < |w| && StartsWith(w, p.next)
    decreases |endings|
  {
    if endings == [] then NoStrip
    else if Applies(w, endings[0], stems) then Outcome(w, endings[0], stems)
    else ScanEndings(w, endings[1..], stems)
  }

  /** A pass acts on the first ending that applies, and stops only when
      none does. */
  lemma {:induction false} ScanEndingsFirst(w: string, endings: seq<string>, stems: set<string>)
    ensures ScanEndings(w, endings, stems).NoStrip? <==>
      forall e :: e in endings ==> !Applies(w, e, stems)
    ensures !ScanEndings(w, endings, stems).NoStrip? ==>
      exists i :: 0 <= i < |endings| && Applies(w, endings[i], stems)
        && (forall j :: 0 <= j < i ==> !Applies(w, endings[j], stems))
        && ScanEndings(w, endings, stems) == Outcome(w, endings[i], stems)
    decreases |endings|
  {
    if endings != [] {
      ScanEndingsFirst(w, endings[1..], stems);
      if !Applies(w, endings[0], stems) {
        assert forall e :: e in endings ==> e == endings[0] || e in endings[1..];
        if !ScanEndings(w, endings, stems).NoStrip? {
          var i :| 0 <= i < |endings[1..]| && Applies(w, endings[1..][i], stems)
            && (forall j :: 0 <= j < i ==> !Applies(w, endings[1..][j], stems))
            && ScanEndings(w, endings[1..], stems) == Outcome(w, endings[1..][i], stems);
          assert forall j :: 0 <= j < i + 1 ==> !Applies(w, endings[j], stems) by {
            forall j | 0 < j < i + 1
              ensures !Applies(w, endings[j], stems)
            {
              assert endings[j] == endings[1..][j - 1];
            }
          }
          assert endings[i + 1] == endings[1..][i];
        }
      }
    }
  }

  /** No ending takes effect on `w`. */
  predicate Stuck(w: string, endings: seq<string>, stems: set<string>) {
    forall e :: e in endings ==> !Applies(w, e, stems)
  }

  /** The loop of `stem` as a recursive function: it returns a prefix of
      the word that is a known stem, at most `MinLen` long, or a word no
      ending takes effect on. */
  function Greedy(w: string, endings: seq<string>, stems: set<string>): (r: string)
    ensures StartsWith(w, r)
    ensures |w| <= MinLen ==> r == w
    ensures r in stems || |r| <= MinLen || Stuck(r, endings, stems)
    decreases |w|
  {
    if |w| <= MinLen then w
    else
      match ScanEndings(w, endings, stems)
      case Found(s) => s
      case Accept(next) =>
        var r := Greedy(next, endings, stems);
        StartsWithTrans(w, next, r);
        r
      case NoStrip =>
        ScanEndingsFirst(w, endings, stems);
        w
  }

  /** `stem(word, endings, stems_set)`; `lower` stands for `str.lower`. */
  method Stem(word: string, lower: string -> string, endings: seq<string>, stems: set<string>) returns (r: string)
    ensures r == Greedy(lower(word), endings, stems)
    ensures StartsWith(lower(word), r)
    ensures |lower(word)| <= MinLen ==> r == lower(word)
    ensures r in stems || |r| <= MinLen || Stuck(r, endings, stems)
  {
    var w := lower(word);
    while |w| > MinLen
      invariant Greedy(w, endings, stems) == Greedy(lower(word), endings, stems)
      invariant StartsWith(lower(word), w)
      invariant |lower(word)| <= MinLen ==> w == lower(word)
      decreases |w|
    {
      var stripped := false;
      var next := w;
      var i := 0;
      while i < |endings|
        invariant 0 <= i <= |endings|
        invariant ScanEndings(w, endings, stems) == ScanEndings(w, endings[i..], stems)
        decreases |endings| - i
      {
        assert endings[i..][1..] == endings[i + 1..];
        var e := endings[i];
        if EndsWith(w, e) {
          var cand := CutTail(w, |e|);
          if cand in stems {
            StartsWithTrans(lower(word), w, cand);
            return cand;
          }
          if |cand| >= MinLen {
            next := cand;
            stripped := true;
            break;
          }
        }
        i := i + 1;
      }
      if !stripped {
        ScanEndingsFirst(w, endings, stems);
        break;
      }
      StartsWithTrans(lower(word), w, next);
      w := next;
    }
    r := w;
  }
}
