/** The job driver: `run_job` chains the stages — load, map, shuffle, reduce —
    then creates the output directory, writes the report `part-00000` and
    finally the marker `_SUCCESS`. The file system is modelled by the ordered
    list of effects the job has on it. */
module Job {
  import opened Tokenizer
  import opened Mapper
  import opened Grouper
  import opened Reducer
  import opened Output

  /** One effect of the job on the output directory. */
  datatype Event =
    | CreateDirectory
    | WriteFile(name: string, chunks: seq<string>)

  const ReportName := "part-00000"
  const MarkerName := "_SUCCESS"
  const MarkerText := "Job completed successfully.\n"

  /** The report for a list of `(word, 1)` pairs: the reducer's aggregates,
      sorted by count, largest first. */
  function Report(pairs: seq<Pair>): seq<Aggregate> {
    SortByCountDesc(Reduce(GroupBy(pairs)))
  }

  /** The report's contents for the lines `load_input` read. */
  function WordCount(lines: seq<string>): seq<Aggregate> {
    Report(MapAll(lines))
  }

  /** `run_job` on the lines `load_input` read: the directory is created
      first, the report is written next, and the marker only after it, so a
      present marker means a complete report. Each report line reads back as
      the corresponding word count. */
  method RunJob(lines: seq<string>) returns (events: seq<Event>)
    ensures |events| == 3
    ensures events[0] == CreateDirectory
    ensures events[1].WriteFile? && events[1].name == ReportName
    ensures events[2] == WriteFile(MarkerName, [MarkerText])
    ensures |events[1].chunks| == |WordCount(lines)|
    ensures forall i :: 0 <= i < |events[1].chunks| ==>
      events[1].chunks[i] == FormatLine(WordCount(lines)[i])
      && ParseLine(events[1].chunks[i]) == Some(WordCount(lines)[i])
  {
    var pairs := MapAll(lines);
    var groups := ShuffleAndSort(pairs);
    var aggs := Reduce(groups);
    var writes := SaveOutput(aggs);
    WordCountSpec(lines);
    events := [CreateDirectory, WriteFile(ReportName, writes), WriteFile(MarkerName, [MarkerText])];
  }

  // ---------------------------------------------------------------------
  // Lemmas

  /** A word of word characters holds no tab, so its report line parses. */
  lemma NoTab(w: string)
    requires AllWordChars(w)
    ensures '\t' !in w
  {
  }

  /** Every key of the mapper's output is one of the pairs' words. */
  lemma KeyOfPairs(pairs: seq<Pair>, k: string)
    requires forall i :: 0 <= i < |pairs| ==> UnitPair(pairs[i])
    requires Count(pairs, k) > 0
    ensures IsWord(k) && AllWordChars(k)
  {
    DistinctKeysMembership(pairs, k);
    var j :| 0 <= j < |Keys(pairs)| && Keys(pairs)[j] == k;
    assert UnitPair(pairs[j]);
  }

  /** Each report line is a word of the pairs with its number of occurrences. */
  lemma ReportEntries(pairs: seq<Pair>)
    requires forall i :: 0 <= i < |pairs| ==> UnitPair(pairs[i])
    ensures forall i :: 0 <= i < |Report(pairs)| ==>
      Report(pairs)[i].1 == Count(pairs, Report(pairs)[i].0) > 0
      && IsWord(Report(pairs)[i].0) && AllWordChars(Report(pairs)[i].0)
      && '\t' !in Report(pairs)[i].0
  {
    var r := Reduce(GroupBy(pairs));
    var w := Report(pairs);
    ReduceCounts(pairs);
    SortMembers(r);
    forall i | 0 <= i < |w|
      ensures w[i].1 == Count(pairs, w[i].0) > 0
      ensures IsWord(w[i].0) && AllWordChars(w[i].0) && '\t' !in w[i].0
    {
      assert w[i] in r;
      var j :| 0 <= j < |r| && r[j] == w[i];
      KeyOfPairs(pairs, w[i].0);
      NoTab(w[i].0);
    }
  }

  /** Every word of the pairs is in the report, with its number of
      occurrences, and nothing else is. */
  lemma ReportMembers(pairs: seq<Pair>)
    requires forall i :: 0 <= i < |pairs| ==> UnitPair(pairs[i])
    ensures forall k :: Count(pairs, k) > 0 <==> (k, Count(pairs, k)) in Report(pairs)
  {
    var r := Reduce(GroupBy(pairs));
    var w := Report(pairs);
    var d := DistinctKeys(pairs);
    ReduceCounts(pairs);
    SortMembers(r);
    forall k ensures Count(pairs, k) > 0 <==> (k, Count(pairs, k)) in w {
      if Count(pairs, k) > 0 {
        DistinctKeysMembership(pairs, k);
        var j :| 0 <= j < |d| && d[j] == k;
        assert r[j] == (k, Count(pairs, k));
      } else {
        assert forall j :: 0 <= j < |r| ==> r[j].0 != k;
      }
    }
  }

  /** What the job computes: the report lists every word of the input exactly
      once, with its number of occurrences, largest count first; words with the
      same count keep the reducer's first-occurrence order; and the counts add
      up to the number of pairs the mapper emitted. */
  lemma WordCountSpec(lines: seq<string>)
    ensures NonIncreasing(WordCount(lines))
    ensures UniqueKeys(WordCount(lines))
    ensures forall c :: WithCount(WordCount(lines), c) == WithCount(Reduce(GroupBy(MapAll(lines))), c)
    ensures forall k :: Count(MapAll(lines), k) > 0 <==> (k, Count(MapAll(lines), k)) in WordCount(lines)
    ensures forall i :: 0 <= i < |WordCount(lines)| ==>
      WordCount(lines)[i].1 == Count(MapAll(lines), WordCount(lines)[i].0) > 0
      && IsWord(WordCount(lines)[i].0) && AllWordChars(WordCount(lines)[i].0)
      && '\t' !in WordCount(lines)[i].0
    ensures Total(WordCount(lines)) == |MapAll(lines)| == TotalPairs(lines)
  {
    var pairs := MapAll(lines);
    var r := Reduce(GroupBy(pairs));
    MapAllPairs(lines);
    MapAllLength(lines);
    ReduceCounts(pairs);
    SortUnique(r);
    SortTotal(r);
    forall c ensures WithCount(Report(pairs), c) == WithCount(r, c) {
      SortStable(r, c);
    }
    ReportEntries(pairs);
    ReportMembers(pairs);
  }
}
