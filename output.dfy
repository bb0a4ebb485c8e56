/** The output writer: `save_output` sorts the aggregates with
    `sorted(sequence, key=lambda x: -x[1])` (a stable sort, by count, largest
    first) and writes each as the line `word\tcount\n`. */
module Output {
  import opened Reducer

  datatype Option<T> = None | Some(value: T)

  /** One final `(word, count)` pair. */
  type Aggregate = (string, int)

  // ---------------------------------------------------------------------
  // Ordering

  /** Counts never increase from left to right. */
  predicate NonIncreasing(s: seq<Aggregate>) {
    forall i, j :: 0 <= i < j < |s| ==> s[i].1 >= s[j].1
  }

  /** The aggregates with count `c`, in their order in `s`. */
  function WithCount(s: seq<Aggregate>, c: int): seq<Aggregate> {
    if s == [] then []
    else (if s[0].1 == c then [s[0]] else []) + WithCount(s[1..], c)
  }

  /** No word appears twice. */
  predicate UniqueKeys(s: seq<Aggregate>) {
    forall i, j :: 0 <= i < j < |s| ==> s[i].0 != s[j].0
  }

  /** Inserts `x` in front of the first element whose count is not larger
      than its own: in a list sorted by count, largest first, `x` goes before
      its equals. */
  function Insert(x: Aggregate, s: seq<Aggregate>): (r: seq<Aggregate>)
    ensures |r| == |s| + 1
    ensures r[0] == x || (s != [] && r[0] == s[0])
  {
    if s == [] || s[0].1 <= x.1 then [x] + s
    else [s[0]] + Insert(x, s[1..])
  }

  /** Putting an aggregate whose count is not smaller than the first count in
      front keeps a list sorted. */
  lemma ConsNonIncreasing(a: Aggregate, t: seq<Aggregate>)
    requires NonIncreasing(t)
    requires t == [] || a.1 >= t[0].1
    ensures NonIncreasing([a] + t)
  {
    var r := [a] + t;
    forall i, j | 0 <= i < j < |r| ensures r[i].1 >= r[j].1 {
      assert r[j] == t[j - 1];
      if i > 0 {
        assert r[i] == t[i - 1];
      } else if j > 1 {
        assert t[0].1 >= t[j - 1].1;
      }
    }
  }

  /** `sorted(sequence, key=lambda x: -x[1])`: ordered by count, largest first,
      and a permutation of its input. */
  function SortByCountDesc(s: seq<Aggregate>): (r: seq<Aggregate>)
    ensures |r| == |s|
    ensures NonIncreasing(r)
    ensures multiset(r) == multiset(s)
  {
    if s == [] then []
    else
      var t := SortByCountDesc(s[1..]);
      InsertSorted(s[0], t);
      InsertPerm(s[0], t);
      assert s == [s[0]] + s[1..];
      Insert(s[0], t)
  }

  /** A list already ordered by count, largest first, sorts to itself. */
  lemma {:induction false} SortedFixed(s: seq<Aggregate>)
    requires NonIncreasing(s)
    ensures SortByCountDesc(s) == s
  {
    if s != [] {
      assert NonIncreasing(s[1..]);
      SortedFixed(s[1..]);
      assert s == [s[0]] + s[1..];
    }
  }

  /** Sorting is idempotent: sorting the sorted list changes nothing. */
  lemma SortIdempotent(s: seq<Aggregate>)
    ensures SortByCountDesc(SortByCountDesc(s)) == SortByCountDesc(s)
  {
    SortedFixed(SortByCountDesc(s));
  }

  /** Inserting into a sorted list keeps it sorted. */
  lemma {:induction false} InsertSorted(x: Aggregate, s: seq<Aggregate>)
    requires NonIncreasing(s)
    ensures NonIncreasing(Insert(x, s))
  {
    if s == [] || s[0].1 <= x.1 {
      ConsNonIncreasing(x, s);
    } else {
      var t := Insert(x, s[1..]);
      InsertSorted(x, s[1..]);
      assert s[0].1 >= t[0].1 by {
        if t[0] != x {
          assert s[0].1 >= s[1].1;
        }
      }
      ConsNonIncreasing(s[0], t);
    }
  }

  /** Inserting adds exactly `x`: nothing is lost or duplicated. */
  lemma {:induction false} InsertPerm(x: Aggregate, s: seq<Aggregate>)
    ensures multiset(Insert(x, s)) == multiset(s) + multiset{x}
  {
    if s != [] && s[0].1 > x.1 {
      InsertPerm(x, s[1..]);
      assert s == [s[0]] + s[1..];
    }
  }

  // ---------------------------------------------------------------------
  // Line format

  /** The decimal digit character for `d`. */
  function DigitChar(d: nat): (c: char)
    requires d < 10
    ensures '0' <= c <= '9'
  {
    ('0' as int + d) as char
  }

  predicate AllDigits(s: string) {
    forall i :: 0 <= i < |s| ==> '0' <= s[i] <= '9'
  }

  /** `str` of a non-negative integer: its decimal digits, no leading zero. */
  function NatToDecimal(n: nat): (r: string)
    ensures |r| > 0 && AllDigits(r)
    ensures r[0] == '0' ==> n == 0 && r == "0"
  {
    if n < 10 then [DigitChar(n)]
    else NatToDecimal(n / 10) + [DigitChar(n % 10)]
  }

  /** `str` of an integer: a minus sign in front of a negative one. */
  function IntToDecimal(n: int): (r: string)
    ensures |r| > 0 && (r[0] == '-' <==> n < 0)
  {
    if n < 0 then "-" + NatToDecimal(-n) else NatToDecimal(n)
  }

  /** The line `f"{k}\t{v}\n"` that `save_output` writes for one aggregate. */
  function FormatLine(a: Aggregate): (r: string)
    ensures |r| == |a.0| + |IntToDecimal(a.1)| + 2
    ensures r[..|a.0|] == a.0 && r[|a.0|] == '\t' && r[|r| - 1] == '\n'
  {
    a.0 + "\t" + IntToDecimal(a.1) + "\n"
  }

  /** The number a string of decimal digits denotes. */
  function DecimalValue(s: string): nat
    requires AllDigits(s)
  {
    if s == [] then 0
    else DecimalValue(s[..|s| - 1]) * 10 + (s[|s| - 1] as int - '0' as int)
  }

  /** Reads back an integer written by `IntToDecimal`. */
  function ParseInt(s: string): Option<int> {
    if |s| > 1 && s[0] == '-' && AllDigits(s[1..]) then Some(0 - DecimalValue(s[1..]))
    else if |s| > 0 && AllDigits(s) then Some(DecimalValue(s))
    else None
  }

  /** The position of the first tab in `s`, if any. */
  function FindTab(s: string): (r: Option<nat>)
    ensures r.Some? ==> r.value < |s| && s[r.value] == '\t' && '\t' !in s[..r.value]
    ensures r.None? ==> '\t' !in s
  {
    if s == [] then None
    else if s[0] == '\t' then Some(0)
    else match FindTab(s[1..])
      case None => None
      case Some(j) =>
        assert s[..j + 1] == [s[0]] + s[1..][..j];
        Some(j + 1)
  }

  /** Reads back one report line: the word up to the first tab, then the
      count, then the newline. */
  function ParseLine(line: string): Option<Aggregate> {
    if line == [] || line[|line| - 1] != '\n' then None
    else
      var body := line[..|line| - 1];
      match FindTab(body)
      case None => None
      case Some(j) =>
        match ParseInt(body[j + 1..])
        case None => None
        case Some(v) => Some((body[..j], v))
  }

  /** `save_output`'s writing loop: the successive arguments of `f.write`, one
      line per aggregate in sorted order. The report file holds them run
      together. */
  method SaveOutput(aggs: seq<Aggregate>) returns (writes: seq<string>)
    ensures |writes| == |aggs|
    ensures forall i :: 0 <= i < |writes| ==> writes[i] == FormatLine(SortByCountDesc(aggs)[i])
    ensures forall i :: 0 <= i < |writes| && '\t' !in SortByCountDesc(aggs)[i].0 ==>
      ParseLine(writes[i]) == Some(SortByCountDesc(aggs)[i])
  {
    var sorted := SortByCountDesc(aggs);
    writes := [];
    for i := 0 to |sorted|
      invariant |writes| == i
      invariant forall j :: 0 <= j < i ==> writes[j] == FormatLine(sorted[j])
    {
      writes := writes + [FormatLine(sorted[i])];
    }
    forall i | 0 <= i < |writes| && '\t' !in sorted[i].0
      ensures ParseLine(writes[i]) == Some(sorted[i])
    {
      ParseFormatLine(sorted[i]);
    }
  }

  // ---------------------------------------------------------------------
  // Lemmas

  /** `x` lands in front of every element with its count: among the elements
      with count `c`, the order is `x` (when it has count `c`) and then those
      of `s`. */
  lemma {:induction false} InsertStable(x: Aggregate, s: seq<Aggregate>, c: int)
    ensures WithCount(Insert(x, s), c) == (if x.1 == c then [x] else []) + WithCount(s, c)
  {
    if s == [] || s[0].1 <= x.1 {
      assert ([x] + s)[1..] == s;
    } else {
      var t := Insert(x, s[1..]);
      InsertStable(x, s[1..], c);
      var r := Insert(x, s);
      assert r[0] == s[0] && r[1..] == t;
      var rest := WithCount(s[1..], c);
      if s[0].1 == c {
        assert x.1 != c;
        assert WithCount(r, c) == [s[0]] + rest;
      } else {
        assert WithCount(r, c) == WithCount(t, c);
      }
    }
  }

  /** Python's `sorted` is stable: for every count, the aggregates with that
      count appear in the output in the same order as in the input. */
  lemma {:induction false} SortStable(s: seq<Aggregate>, c: int)
    ensures WithCount(SortByCountDesc(s), c) == WithCount(s, c)
  {
    if s != [] {
      SortStable(s[1..], c);
      InsertStable(s[0], SortByCountDesc(s[1..]), c);
    }
  }

  lemma {:induction false} DecimalValueOfDecimal(n: nat)
    ensures DecimalValue(NatToDecimal(n)) == n
  {
    var r := NatToDecimal(n);
    if n >= 10 {
      DecimalValueOfDecimal(n / 10);
      assert r[..|r| - 1] == NatToDecimal(n / 10);
    }
  }

  /** `ParseInt` reads back what `str` wrote. */
  lemma ParseIntOfDecimal(n: int)
    ensures ParseInt(IntToDecimal(n)) == Some(n)
  {
    var s := IntToDecimal(n);
    if n < 0 {
      var digits := NatToDecimal(-n);
      DecimalValueOfDecimal(-n);
      assert s == "-" + digits;
      assert s[1..] == digits;
      assert |s| > 1 && s[0] == '-' && AllDigits(s[1..]);
    } else {
      DecimalValueOfDecimal(n);
      assert s[0] != '-';
    }
  }

  lemma {:induction false} FindTabAfter(k: string, rest: string)
    requires '\t' !in k
    ensures FindTab(k + "\t" + rest) == Some(|k|)
  {
    if k != [] {
      assert (k + "\t" + rest)[1..] == k[1..] + "\t" + rest;
      FindTabAfter(k[1..], rest);
    }
  }

  /** Round trip of the line format: a line written for a word without tabs
      reads back as the same word and count. */
  lemma ParseFormatLine(a: Aggregate)
    requires '\t' !in a.0
    ensures ParseLine(FormatLine(a)) == Some(a)
  {
    var digits := IntToDecimal(a.1);
    var line := FormatLine(a);
    var body := a.0 + "\t" + digits;
    assert line[..|line| - 1] == body;
    FindTabAfter(a.0, digits);
    assert body[|a.0| + 1..] == digits;
    assert body[..|a.0|] == a.0;
    ParseIntOfDecimal(a.1);
  }

  /** Sorting keeps every aggregate and adds none. */
  lemma SortMembers(s: seq<Aggregate>)
    ensures |SortByCountDesc(s)| == |s|
    ensures forall x :: x in SortByCountDesc(s) <==> x in s
  {
    var r := SortByCountDesc(s);
    assert |multiset(r)| == |multiset(s)|;
    forall x ensures x in r <==> x in s {
      assert x in r <==> x in multiset(r);
      assert x in s <==> x in multiset(s);
    }
  }

  lemma {:induction false} InsertUnique(x: Aggregate, s: seq<Aggregate>)
    requires UniqueKeys(s)
    requires forall i :: 0 <= i < |s| ==> s[i].0 != x.0
    ensures UniqueKeys(Insert(x, s))
  {
    if s != [] && s[0].1 > x.1 {
      InsertUnique(x, s[1..]);
      var t := Insert(x, s[1..]);
      InsertPerm(x, s[1..]);
      forall y | y in t ensures y.0 != s[0].0 {
        assert y in multiset(t);
        assert y == x || y in multiset(s[1..]);
      }
    }
  }

  /** Sorting keeps words unique. */
  lemma {:induction false} SortUnique(s: seq<Aggregate>)
    requires UniqueKeys(s)
    ensures UniqueKeys(SortByCountDesc(s))
  {
    if s != [] {
      var t := SortByCountDesc(s[1..]);
      SortUnique(s[1..]);
      SortMembers(s[1..]);
      forall i | 0 <= i < |t| ensures t[i].0 != s[0].0 {
        assert t[i] in s[1..];
      }
      InsertUnique(s[0], t);
    }
  }

  lemma TotalPrepend(x: Aggregate, s: seq<Aggregate>)
    ensures Total([x] + s) == x.1 + Total(s)
  {
    assert Values([x] + s) == [x.1] + Values(s);
    SumAppend([x.1], Values(s));
    assert Sum([x.1]) == x.1 by {
      assert [x.1][..0] == [];
    }
  }

  lemma {:induction false} InsertTotal(x: Aggregate, s: seq<Aggregate>)
    ensures Total(Insert(x, s)) == x.1 + Total(s)
  {
    if s == [] || s[0].1 <= x.1 {
      TotalPrepend(x, s);
    } else {
      InsertTotal(x, s[1..]);
      TotalPrepend(s[0], Insert(x, s[1..]));
      TotalPrepend(s[0], s[1..]);
      assert s == [s[0]] + s[1..];
    }
  }

  /** Sorting does not change the total of the counts. */
  lemma {:induction false} SortTotal(s: seq<Aggregate>)
    ensures Total(SortByCountDesc(s)) == Total(s)
  {
    if s != [] {
      SortTotal(s[1..]);
      InsertTotal(s[0], SortByCountDesc(s[1..]));
      TotalPrepend(s[0], s[1..]);
      assert s == [s[0]] + s[1..];
    }
  }
}
