/** The two pure helpers of the batch-stemming script: the reader of the
    frequency-ranked priority list (one `count word` pair per line), and
    `chunked`, which cuts the word list into batches. */
module Priority {
  import opened Wrappers
  import opened Text

  predicate IsDigit(c: char) {
    48 <= c as int <= 57
  }

  function DigitValue(c: char): nat
    requires IsDigit(c)
  {
    c as int - 48
  }

  /** The value of a run of decimal digits, most significant first. */
  function DigitsValue(ds: string): nat
    requires forall k :: 0 <= k < |ds| ==> IsDigit(ds[k])
    decreases |ds|
  {
    if ds == [] then 0
    else 10 * DigitsValue(ds[..|ds| - 1]) + DigitValue(ds[|ds| - 1])
  }

  /** What `int()` accepts after the sign: digits, with single underscores
      allowed between two digits. */
  predicate IsDigitGroup(body: string) {
    && body != []
    && IsDigit(body[0])
    && IsDigit(body[|body| - 1])
    && (forall k :: 0 <= k < |body| ==> IsDigit(body[k]) || body[k] == '_')
    && (forall k :: 0 <= k < |body| - 1 ==> body[k] == '_' ==> IsDigit(body[k + 1]))
  }

  /** The digits of `body`, underscores dropped. */
  function Digits(body: string): (ds: string)
    ensures forall k :: 0 <= k < |ds| ==> ds[k] != '_' && ds[k] in body
    ensures (forall k :: 0 <= k < |body| ==> IsDigit(body[k]) || body[k] == '_') ==>
      forall k :: 0 <= k < |ds| ==> IsDigit(ds[k])
    decreases |body|
  {
    if body == [] then []
    else if body[0] == '_' then Digits(body[1..])
    else [body[0]] + Digits(body[1..])
  }

  /** A leading minus sign. */
  predicate Negative(text: string) {
    text != [] && text[0] == '-'
  }

  /** The text after a leading sign, if there is one. */
  function Unsigned(text: string): string {
    if text != [] && (text[0] == '-' || text[0] == '+') then text[1..] else text
  }

  function Signed(negative: bool, n: nat): int {
    if negative then -(n as int) else n
  }

  /** The value of a digit group, negated when a minus sign preceded it. */
  function ReadBody(body: string, negative: bool): Option<int> {
    if !IsDigitGroup(body) then None
    else Some(Signed(negative, DigitsValue(Digits(body))))
  }

  /** `int(text)` on a field of `split()`: an optional sign and a digit
      group, or `ValueError` (here `None`). The interpreter's limit on the
      number of digits a conversion may have is not modelled. */
  function ParseInt(text: string): (r: Option<int>)
    ensures r.Some? <==> IsDigitGroup(Unsigned(text))
    ensures r.Some? && r.value < 0 ==> Negative(text)
    ensures r.Some? ==> exists k :: 0 <= k <= 1 && k < |text| && IsDigit(text[k])
  {
    var r := ReadBody(Unsigned(text), Negative(text));
    assert r.Some? ==> exists k :: 0 <= k <= 1 && k < |text| && IsDigit(text[k]) by {
      if r.Some? && text != [] && (text[0] == '-' || text[0] == '+') {
        assert IsDigit(text[1..][0]);
      }
    }
    r
  }

  function DigitChar(d: nat): (c: char)
    requires d < 10
    ensures IsDigit(c) && DigitValue(c) == d
  {
    (48 + d) as char
  }

  /** The decimal digits of a natural number, most significant first. */
  function ShowNat(n: nat): (s: string)
    ensures s != [] && forall k :: 0 <= k < |s| ==> IsDigit(s[k])
    decreases n
  {
    if n < 10 then [DigitChar(n)] else ShowNat(n / 10) + [DigitChar(n % 10)]
  }

  /** `str(n)`. */
  function ShowInt(n: int): string {
    if n < 0 then "-" + ShowNat(-n) else ShowNat(n)
  }

  lemma {:induction false} ShowNatValue(n: nat)
    ensures DigitsValue(ShowNat(n)) == n
    decreases n
  {
    if n >= 10 {
      var s := ShowNat(n);
      ShowNatValue(n / 10);
      assert s[..|s| - 1] == ShowNat(n / 10);
    }
  }

  lemma {:induction false} DigitsOfDigits(ds: string)
    requires forall k :: 0 <= k < |ds| ==> IsDigit(ds[k])
    ensures Digits(ds) == ds
    decreases |ds|
  {
    if ds != [] {
      DigitsOfDigits(ds[1..]);
    }
  }

  lemma DigitGroupOfDigits(ds: string)
    requires ds != [] && forall k :: 0 <= k < |ds| ==> IsDigit(ds[k])
    ensures IsDigitGroup(ds)
  {
  }

  lemma ReadDigits(ds: string, negative: bool)
    requires ds != [] && forall k :: 0 <= k < |ds| ==> IsDigit(ds[k])
    ensures ReadBody(ds, negative) == Some(Signed(negative, DigitsValue(ds)))
  {
    DigitsOfDigits(ds);
    DigitGroupOfDigits(ds);
    assert DigitsValue(Digits(ds)) == DigitsValue(ds);
  }

  /** A run of digits reads as its value. */
  lemma ParseDigits(ds: string)
    requires ds != [] && forall k :: 0 <= k < |ds| ==> IsDigit(ds[k])
    ensures ParseInt(ds) == Some(DigitsValue(ds))
  {
    assert IsDigit(ds[0]);
    assert Unsigned(ds) == ds && !Negative(ds);
    ReadDigits(ds, false);
  }

  /** A minus sign and a run of digits read as the negated value. */
  lemma ParseNegatedDigits(ds: string)
    requires ds != [] && forall k :: 0 <= k < |ds| ==> IsDigit(ds[k])
    ensures ParseInt("-" + ds) == Some(-(DigitsValue(ds) as int))
  {
    var text := "-" + ds;
    assert text[0] == '-' && text[1..] == ds;
    assert Negative(text) && Unsigned(text) == ds;
    ReadDigits(ds, true);
    ParseIntReads(text);
    assert ParseInt(text) == ReadBody(ds, true);
  }

  lemma ParseIntReads(text: string)
    ensures ParseInt(text) == ReadBody(Unsigned(text), Negative(text))
  {
  }

  /** `int(str(n)) == n`: the parser reads back every number written in
      decimal. */
  lemma ParseShowInt(n: int)
    ensures ParseInt(ShowInt(n)) == Some(n)
  {
    if n < 0 {
      ParseShowNegative(n);
    } else {
      var ds := ShowNat(n);
      ShowNatValue(n);
      ParseDigits(ds);
    }
  }

  lemma ParseShowNegative(n: int)
    requires n < 0
    ensures ParseInt(ShowInt(n)) == Some(n)
  {
    var m: nat := -n;
    var ds := ShowNat(m);
    assert ShowInt(n) == "-" + ds;
    ShowNatValue(m);
    ParseNegatedDigits(ds);
  }


  /** How the reader takes one line, once stripped and split. */
  datatype LineKind = Ignored | Row(countText: string, word: string)

  /** A line that is not blank, not a comment and has at least two
      fields gives a row of its first two fields; fields after the second
      are ignored. */
  function ClassifyLine(raw: string): (k: LineKind)
    ensures k.Row? ==> IsWord(k.countText) && IsWord(k.word)
    ensures k.Row? <==> !(Strip(raw) == [] || StartsWith(Strip(raw), "#")) && |Split(Strip(raw))| >= 2
    ensures k.Row? ==> k.countText == Split(Strip(raw))[0] && k.word == Split(Strip(raw))[1]
  {
    var line := Strip(raw);
    if line == [] || StartsWith(line, "#") then Ignored
    else
      var parts := Split(line);
      if |parts| < 2 then Ignored
      else
        SplitWords(line);
        Row(parts[0], parts[1])
  }

  /** One entry of the list: the count and the word. */
  datatype Entry = Entry(count: int, word: string)

  /** `int()` refused the count field of a line. */
  datatype Error = BadCount(text: string)

  /** `limit` taken as Python truth: `None` and `0` mean no limit. */
  predicate Limited(limit: Option<int>) {
    limit.Some? && limit.value != 0
  }

  /** The reading loop over the classified lines, from a point where `n`
      entries are already kept; `parse` reads a count. */
  function Collect(kinds: seq<LineKind>, parse: string -> Option<int>, limit: Option<int>, n: nat)
    : Result<seq<Entry>, Error>
    decreases |kinds|
  {
    if kinds == [] then Success([])
    else
      match kinds[0]
      case Ignored => Collect(kinds[1..], parse, limit, n)
      case Row(countText, word) =>
        match parse(countText)
        case None => Failure(BadCount(countText))
        case Some(count) =>
          if Limited(limit) && n + 1 >= limit.value then Success([Entry(count, word)])
          else
            match Collect(kinds[1..], parse, limit, n + 1)
            case Failure(e) => Failure(e)
            case Success(rest) => Success([Entry(count, word)] + rest)
  }

  /** Every line, classified. */
  function Kinds(lines: seq<string>): (ks: seq<LineKind>)
    ensures |ks| == |lines|
    ensures forall i :: 0 <= i < |lines| ==> ks[i] == ClassifyLine(lines[i])
  {
    MapLines(lines, ClassifyLine)
  }

  /** `parse_priority_file` over the lines of the file. With no limit
      (`None` or `0`) it succeeds exactly when `int()` reads the count of
      every row, and then gives one entry per row, in file order. With a
      limit it reads the rows up to the one that fills it (a negative
      limit is true and already reached, so that is the first row) and
      succeeds exactly when their counts are numbers. */
  function ParsePriority(lines: seq<string>, limit: Option<int>): (r: Result<seq<Entry>, Error>)
    ensures !Limited(limit) ==>
      var rows := Rows(Kinds(lines));
      && (r.Success? <==> CountsBefore(rows, ParseInt, |rows|))
      && (r.Success? ==> |r.value| == |rows| && forall i :: 0 <= i < |rows| ==> Converts(rows[i], ParseInt, r.value[i]))
    ensures Limited(limit) && limit.value > 0 && r.Success? ==> |r.value| <= limit.value
    ensures Limited(limit) && limit.value < 0 && r.Success? ==> |r.value| <= 1
    ensures Limited(limit) ==>
      var rows := Rows(Kinds(lines));
      var k := KeptRows(limit.value, 0, |rows|);
      && (r.Success? <==> CountsBefore(rows, ParseInt, k))
      && (r.Success? ==> |r.value| == k && forall i :: 0 <= i < k ==> Converts(rows[i], ParseInt, r.value[i]))
  {
    if !Limited(limit) then
      UnlimitedSuccess(Kinds(lines), ParseInt, limit, 0);
      Collect(Kinds(lines), ParseInt, limit, 0)
    else if limit.value > 0 then
      LimitBound(Kinds(lines), ParseInt, limit, 0);
      LimitedCollect(Kinds(lines), ParseInt, limit, 0);
      Collect(Kinds(lines), ParseInt, limit, 0)
    else
      NegativeLimit(Kinds(lines), ParseInt, limit, 0);
      LimitedCollect(Kinds(lines), ParseInt, limit, 0);
      Collect(Kinds(lines), ParseInt, limit, 0)
  }

  /** How many of `rows` remaining rows a limited reader that has kept `n`
      entries goes on to read: up to the limit, and at least one, since
      the test `len(words) >= limit` comes after the append. */
  function KeptRows(limit: int, n: nat, rows: nat): (k: nat)
    ensures k <= rows
    ensures rows > 0 ==> k > 0
  {
    var cap := if limit - n >= 1 then limit - n else 1;
    if cap <= rows then cap else rows
  }

  /** The lines that carry an entry, in file order. */
  function Rows(kinds: seq<LineKind>): (rows: seq<LineKind>)
    ensures forall i :: 0 <= i < |rows| ==> rows[i].Row?
    ensures forall r :: r in rows ==> r in kinds
    decreases |kinds|
  {
    if kinds == [] then []
    else if kinds[0].Row? then [kinds[0]] + Rows(kinds[1..])
    else Rows(kinds[1..])
  }

  /** `e` is the entry `row` stands for. */
  predicate Converts(row: LineKind, parse: string -> Option<int>, e: Entry) {
    row.Row? && parse(row.countText) == Some(e.count) && row.word == e.word
  }

  /** The rows before the `i`-th all have a number for a count. */
  predicate CountsBefore(rows: seq<LineKind>, parse: string -> Option<int>, i: int)
    requires 0 <= i <= |rows|
    requires forall j :: 0 <= j < |rows| ==> rows[j].Row?
  {
    forall j :: 0 <= j < i ==> parse(rows[j].countText).Some?
  }

  lemma CountsBeforeCons(k: LineKind, tail: seq<LineKind>, parse: string -> Option<int>, i: nat)
    requires k.Row? && i <= |tail| && forall j :: 0 <= j < |tail| ==> tail[j].Row?
    ensures CountsBefore([k] + tail, parse, i + 1) <==> parse(k.countText).Some? && CountsBefore(tail, parse, i)
  {
    var rows := [k] + tail;
    assert forall j :: 0 < j < |rows| ==> rows[j] == tail[j - 1];
    if parse(k.countText).Some? && CountsBefore(tail, parse, i) {
      forall j | 0 <= j < i + 1
        ensures parse(rows[j].countText).Some?
      {
        if j > 0 {
          assert rows[j] == tail[j - 1];
        }
      }
    }
    if CountsBefore(rows, parse, i + 1) {
      assert rows[0] == k;
      forall j | 0 <= j < i
        ensures parse(tail[j].countText).Some?
      {
        assert rows[j + 1] == tail[j];
      }
    }
  }

  /** Without a limit, the reader succeeds exactly when every row's count is
      a number, and then keeps one entry per row, in order. */
  lemma {:induction false} UnlimitedSuccess(kinds: seq<LineKind>, parse: string -> Option<int>, limit: Option<int>, n: nat)
    requires !Limited(limit)
    ensures var r := Collect(kinds, parse, limit, n); var rows := Rows(kinds);
      && (r.Success? <==> CountsBefore(rows, parse, |rows|))
      && (r.Success? ==> |r.value| == |rows| && forall i :: 0 <= i < |rows| ==> Converts(rows[i], parse, r.value[i]))
    decreases |kinds|
  {
    if kinds != [] {
      var k := kinds[0];
      if k.Ignored? {
        UnlimitedSuccess(kinds[1..], parse, limit, n);
      } else {
        UnlimitedSuccess(kinds[1..], parse, limit, n + 1);
        var tail := Rows(kinds[1..]);
        var rows := Rows(kinds);
        assert rows == [k] + tail;
        CountsBeforeCons(k, tail, parse, |tail|);
        var r := Collect(kinds, parse, limit, n);
        if r.Success? {
          var rest := Collect(kinds[1..], parse, limit, n + 1);
          assert r.value == [r.value[0]] + rest.value;
          forall i | 0 < i < |rows|
            ensures Converts(rows[i], parse, r.value[i])
          {
            assert rows[i] == tail[i - 1];
            assert r.value[i] == rest.value[i - 1];
          }
        }
      }
    }
  }

  /** Without a limit, a failure names the count of the first row that is
      not a number. */
  lemma {:induction false} UnlimitedFailure(kinds: seq<LineKind>, parse: string -> Option<int>, limit: Option<int>, n: nat)
    requires !Limited(limit)
    ensures var r := Collect(kinds, parse, limit, n); var rows := Rows(kinds);
      r.Failure? ==>
        exists i :: && 0 <= i < |rows| && parse(rows[i].countText).None?
                    && r.error == BadCount(rows[i].countText)
                    && CountsBefore(rows, parse, i)
    decreases |kinds|
  {
    if kinds != [] {
      var k := kinds[0];
      if k.Ignored? {
        UnlimitedFailure(kinds[1..], parse, limit, n);
        assert Rows(kinds) == Rows(kinds[1..]);
      } else {
        var tail := Rows(kinds[1..]);
        var rows := Rows(kinds);
        assert rows == [k] + tail;
        var r := Collect(kinds, parse, limit, n);
        if parse(k.countText).None? {
          assert rows[0] == k;
          assert CountsBefore(rows, parse, 0);
        } else if r.Failure? {
          UnlimitedFailure(kinds[1..], parse, limit, n + 1);
          var rest := Collect(kinds[1..], parse, limit, n + 1);
          var i :| && 0 <= i < |tail| && parse(tail[i].countText).None?
                   && rest.error == BadCount(tail[i].countText)
                   && CountsBefore(tail, parse, i);
          CountsBeforeCons(k, tail, parse, i);
          assert rows[i + 1] == tail[i];
        }
      }
    }
  }

  /** With a positive limit the reader keeps at most that many entries. */
  lemma {:induction false} LimitBound(kinds: seq<LineKind>, parse: string -> Option<int>, limit: Option<int>, n: nat)
    requires Limited(limit) && n < limit.value
    ensures var r := Collect(kinds, parse, limit, n);
      r.Success? ==> n + |r.value| <= limit.value
    decreases |kinds|
  {
    if kinds != [] {
      if kinds[0].Ignored? {
        LimitBound(kinds[1..], parse, limit, n);
      } else if n + 1 < limit.value {
        LimitBound(kinds[1..], parse, limit, n + 1);
      }
    }
  }

  /** A negative limit is true as well, and `len(words) >= limit` holds at
      once, so the reader stops after the first entry. */
  lemma {:induction false} NegativeLimit(kinds: seq<LineKind>, parse: string -> Option<int>, limit: Option<int>, n: nat)
    requires Limited(limit) && limit.value < 0
    ensures var r := Collect(kinds, parse, limit, n);
      r.Success? ==> |r.value| <= 1
    decreases |kinds|
  {
    if kinds != [] && kinds[0].Ignored? {
      NegativeLimit(kinds[1..], parse, limit, n);
    }
  }

  /** With a limit, the reader reads the rows up to the one that fills
      it: it succeeds exactly when those rows all have a number for a
      count, and then keeps one entry for each of them, in order. */
  lemma {:induction false} LimitedCollect(kinds: seq<LineKind>, parse: string -> Option<int>, limit: Option<int>, n: nat)
    requires Limited(limit)
    ensures var r := Collect(kinds, parse, limit, n); var rows := Rows(kinds);
      var k := KeptRows(limit.value, n, |rows|);
      && (r.Success? <==> CountsBefore(rows, parse, k))
      && (r.Success? ==> |r.value| == k && forall i :: 0 <= i < k ==> Converts(rows[i], parse, r.value[i]))
    decreases |kinds|
  {
    if kinds != [] {
      var row := kinds[0];
      if row.Ignored? {
        LimitedCollect(kinds[1..], parse, limit, n);
      } else {
        var tail := Rows(kinds[1..]);
        var rows := Rows(kinds);
        assert rows == [row] + tail;
        var k := KeptRows(limit.value, n, |rows|);
        if parse(row.countText).None? {
          assert rows[0] == row;
        } else if n + 1 >= limit.value {
          assert k == 1;
          assert rows[0] == row;
        } else {
          LimitedCollect(kinds[1..], parse, limit, n + 1);
          assert KeptRows(limit.value, n + 1, |tail|) == k - 1;
          CountsBeforeCons(row, tail, parse, k - 1);
          var r := Collect(kinds, parse, limit, n);
          if r.Success? {
            var rest := Collect(kinds[1..], parse, limit, n + 1);
            assert r.value == [r.value[0]] + rest.value;
            forall i | 0 < i < k
              ensures Converts(rows[i], parse, r.value[i])
            {
              assert rows[i] == tail[i - 1];
              assert r.value[i] == rest.value[i - 1];
            }
          }
        }
      }
    }
  }

  /** Once the limit is reached the rest of the file is never read. */
  lemma {:induction false} StopsAtLimit(
    kinds: seq<LineKind>, more: seq<LineKind>, parse: string -> Option<int>, limit: Option<int>, n: nat)
    requires Limited(limit)
    requires Collect(kinds, parse, limit, n).Success?
    requires Collect(kinds, parse, limit, n).value != []
    requires n + |Collect(kinds, parse, limit, n).value| >= limit.value
    ensures Collect(kinds + more, parse, limit, n) == Collect(kinds, parse, limit, n)
    decreases |kinds|
  {
    assert (kinds + more)[0] == kinds[0];
    assert (kinds + more)[1..] == kinds[1..] + more;
    var k := kinds[0];
    if k.Ignored? {
      StopsAtLimit(kinds[1..], more, parse, limit, n);
    } else if !(n + 1 >= limit.value) {
      var rest := Collect(kinds[1..], parse, limit, n + 1);
      assert Collect(kinds, parse, limit, n).value == [Entry(parse(k.countText).value, k.word)] + rest.value;
      StopsAtLimit(kinds[1..], more, parse, limit, n + 1);
    }
  }

  lemma KindsAppend(a: seq<string>, b: seq<string>)
    ensures Kinds(a + b) == Kinds(a) + Kinds(b)
  {
    MapLinesAppend(a, b, ClassifyLine);
  }

  /** The same for the file: lines after the one that fills the limit do not
      change the result. */
  lemma ParsePriorityStops(lines: seq<string>, more: seq<string>, limit: Option<int>)
    requires Limited(limit)
    requires ParsePriority(lines, limit).Success?
    requires ParsePriority(lines, limit).value != []
    requires |ParsePriority(lines, limit).value| >= limit.value
    ensures ParsePriority(lines + more, limit) == ParsePriority(lines, limit)
  {
    KindsAppend(lines, more);
    StopsAtLimit(Kinds(lines), Kinds(more), ParseInt, limit, 0);
  }

  /** `chunked(xs, size)` as a list: the slices of length `size` starting
      at 0, size, 2*size, ...; `range` refuses a zero step, and with a
      negative step it is empty. */
  function Chunked<T>(xs: seq<T>, size: int): (r: Result<seq<seq<T>>, string>)
    ensures r.Failure? <==> size == 0
    ensures size < 0 ==> r == Success([])
    ensures size > 0 ==>
      && Concat(r.value) == xs
      && (|r.value| - 1) * size < |xs| <= |r.value| * size
  {
    if size == 0 then Failure("range() arg 3 must not be zero")
    else if size < 0 then Success([])
    else
      ChunksConcat(xs, size);
      ChunksShape(xs, size);
      Success(Chunks(xs, size))
  }

  function Chunks<T>(xs: seq<T>, size: nat): seq<seq<T>>
    requires size > 0
    decreases |xs|
  {
    if xs == [] then []
    else if |xs| <= size then [xs]
    else [xs[..size]] + Chunks(xs[size..], size)
  }

  function Concat<T>(xss: seq<seq<T>>): seq<T>
    decreases |xss|
  {
    if xss == [] then [] else xss[0] + Concat(xss[1..])
  }

  /** The chunks put back together give the input. */
  lemma {:induction false} ChunksConcat<T>(xs: seq<T>, size: nat)
    requires size > 0
    ensures Concat(Chunks(xs, size)) == xs
    decreases |xs|
  {
    if |xs| > size {
      ChunksConcat(xs[size..], size);
      assert Chunks(xs, size)[1..] == Chunks(xs[size..], size);
      assert xs[..size] + xs[size..] == xs;
    }
  }

  /** There are ceil(|xs| / size) chunks, that is `c` chunks where
      `(c - 1) * size < |xs| <= c * size`; each is non-empty, none is longer
      than `size`, and every one but the last is exactly `size` long. */
  lemma {:induction false} ChunksShape<T>(xs: seq<T>, size: nat)
    requires size > 0
    ensures var cs := Chunks(xs, size);
      && (|cs| - 1) * size < |xs| <= |cs| * size
      && (forall i :: 0 <= i < |cs| ==> 0 < |cs[i]| <= size)
      && (forall i :: 0 <= i < |cs| - 1 ==> |cs[i]| == size)
    decreases |xs|
  {
    if |xs| > size {
      ChunksShape(xs[size..], size);
      var cs, rest := Chunks(xs, size), Chunks(xs[size..], size);
      assert cs == [xs[..size]] + rest;
      assert forall i :: 0 < i < |cs| ==> cs[i] == rest[i - 1];
      MulSucc(|rest|, size);
      assert |cs| - 1 == |rest|;
    }
  }

  /** Chunk `i` is the slice `xs[i*size : (i+1)*size]`, cut off at the end
      of the input. */
  lemma {:induction false} ChunkAt<T>(xs: seq<T>, size: nat, i: nat)
    requires size > 0 && i < |Chunks(xs, size)|
    ensures i * size < |xs|
    ensures Chunks(xs, size)[i] ==
      xs[i * size..if (i + 1) * size < |xs| then (i + 1) * size else |xs|]
    decreases i
  {
    if i > 0 {
      assert |xs| > size;
      var rest := xs[size..];
      assert Chunks(xs, size)[i] == Chunks(rest, size)[i - 1];
      ChunkAt(rest, size, i - 1);
      MulSucc(i, size);
      var lo, mid := (i - 1) * size, i * size;
      var hi := if mid < |rest| then mid else |rest|;
      ShiftSlice(xs, size, lo, hi);
    }
  }

  lemma ShiftSlice<T>(xs: seq<T>, size: nat, lo: nat, hi: nat)
    requires size <= |xs| && lo <= hi <= |xs| - size
    ensures xs[size..][lo..hi] == xs[lo + size..hi + size]
  {
  }

  lemma MulSucc(i: nat, size: nat)
    requires i > 0
    ensures (i - 1) * size + size == i * size
    ensures i * size + size == (i + 1) * size
  {
  }
}
