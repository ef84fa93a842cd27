/** The k6-to-Allure converter under performance-tests/converters: for every
    `.json` result file it folds the k6 entries into a duration list and two
    request counters, sorts the durations, picks the 95th percentile, and writes
    a histogram, a trend chart and one Allure test result into allure-results/. */
module K6Converter {
  import opened K6
  import opened Wrappers

  const JsonSuffix := ".json"

  // ---------------------------------------------------------------------------
  // The metric fold
  // ---------------------------------------------------------------------------

  /** The entries the fold keeps for `metric`: samples (type "Point") of it. */
  predicate IsSample(e: Entry, metric: string)
  {
    e.metric == metric && e.typ == PointType
  }

  /** The samples of `metric`, in input order. */
  function Samples(entries: seq<Entry>, metric: string): seq<Entry>
  {
    if entries == [] then []
    else
      var last := entries[|entries| - 1];
      Samples(entries[..|entries| - 1], metric) + (if IsSample(last, metric) then [last] else [])
  }

  function Values(es: seq<Entry>): seq<int>
  {
    if es == [] then [] else Values(es[..|es| - 1]) + [es[|es| - 1].value]
  }

  function Times(es: seq<Entry>): seq<int>
  {
    if es == [] then [] else Times(es[..|es| - 1]) + [es[|es| - 1].time]
  }

  function Sum(xs: seq<int>): int
  {
    if xs == [] then 0 else Sum(xs[..|xs| - 1]) + xs[|xs| - 1]
  }

  /** What the fold over one file produces. */
  datatype Metrics = Metrics(durations: seq<int>, timestamps: seq<int>, totalRequests: int, failedRequests: int)

  /** The fold's result, stated by filtering: durations and their timestamps
      come from the duration samples, the counters sum the request samples. */
  function MetricsOf(entries: seq<Entry>): Metrics
  {
    Metrics(Values(Samples(entries, DurationMetric)),
            Times(Samples(entries, DurationMetric)),
            Sum(Values(Samples(entries, RequestsMetric))),
            Sum(Values(Samples(entries, FailedMetric))))
  }

  /** The loop over the parsed lines of one file, with its four accumulators. */
  method ExtractMetrics(entries: seq<Entry>) returns (m: Metrics)
    ensures m == MetricsOf(entries)
  {
    var durations: seq<int> := [];
    var timestamps: seq<int> := [];
    var totalRequests := 0;
    var failedRequests := 0;
    for i := 0 to |entries|
      invariant durations == Values(Samples(entries[..i], DurationMetric))
      invariant timestamps == Times(Samples(entries[..i], DurationMetric))
      invariant totalRequests == Sum(Values(Samples(entries[..i], RequestsMetric)))
      invariant failedRequests == Sum(Values(Samples(entries[..i], FailedMetric)))
    {
      var entry := entries[i];
      assert entries[..i + 1] == entries[..i] + [entry];
      FoldStep(entries[..i], entry, DurationMetric);
      FoldStep(entries[..i], entry, RequestsMetric);
      FoldStep(entries[..i], entry, FailedMetric);
      if entry.metric == DurationMetric && entry.typ == PointType {
        durations := durations + [entry.value];
        timestamps := timestamps + [entry.time];
      }
      if entry.metric == RequestsMetric && entry.typ == PointType {
        totalRequests := totalRequests + entry.value;
      }
      if entry.metric == FailedMetric && entry.typ == PointType {
        failedRequests := failedRequests + entry.value;
      }
    }
    assert entries[..|entries|] == entries;
    m := Metrics(durations, timestamps, totalRequests, failedRequests);
  }

  /** One more entry extends the fold by its value when it is a sample. */
  lemma FoldStep(prefix: seq<Entry>, e: Entry, metric: string)
    ensures Values(Samples(prefix + [e], metric))
      == Values(Samples(prefix, metric)) + (if IsSample(e, metric) then [e.value] else [])
    ensures Times(Samples(prefix + [e], metric))
      == Times(Samples(prefix, metric)) + (if IsSample(e, metric) then [e.time] else [])
    ensures Sum(Values(Samples(prefix + [e], metric)))
      == Sum(Values(Samples(prefix, metric))) + (if IsSample(e, metric) then e.value else 0)
  {
    var entries := prefix + [e];
    assert entries[..|entries| - 1] == prefix;
    var before := Samples(prefix, metric);
    assert Samples(entries, metric) == before + (if IsSample(e, metric) then [e] else []);
    if IsSample(e, metric) {
      var after := before + [e];
      assert after[..|after| - 1] == before;
      assert Values(after) == Values(before) + [e.value];
      assert Times(after) == Times(before) + [e.time];
      var vs := Values(before) + [e.value];
      assert vs[..|vs| - 1] == Values(before);
    } else {
      assert before + [] == before;
    }
  }

  lemma {:induction false} SamplesAppend(a: seq<Entry>, b: seq<Entry>, metric: string)
    ensures Samples(a + b, metric) == Samples(a, metric) + Samples(b, metric)
    decreases |b|
  {
    if b == [] {
      assert a + b == a;
    } else {
      var b' := b[..|b| - 1];
      assert (a + b)[..|a + b| - 1] == a + b';
      SamplesAppend(a, b', metric);
    }
  }

  /** An entry is kept exactly when it is a sample of the metric. */
  lemma {:induction false} SamplesMembership(entries: seq<Entry>, metric: string, e: Entry)
    ensures e in Samples(entries, metric) <==> e in entries && IsSample(e, metric)
    decreases |entries|
  {
    if entries != [] {
      var init := entries[..|entries| - 1];
      SamplesMembership(init, metric, e);
      assert entries == init + [entries[|entries| - 1]];
    }
  }

  /** Entries of any other type than "Point", wherever they stand, change nothing. */
  lemma IgnoresNonPoints(a: seq<Entry>, e: Entry, b: seq<Entry>)
    requires e.typ != PointType
    ensures MetricsOf(a + [e] + b) == MetricsOf(a + b)
  {
    forall metric | true
      ensures Samples(a + [e] + b, metric) == Samples(a + b, metric)
    {
      SamplesAppend(a + [e], b, metric);
      SamplesAppend(a, [e], metric);
      SamplesAppend(a, b, metric);
      assert [e][..0] == [];
    }
  }

  lemma {:induction false} ValuesAppend(a: seq<Entry>, b: seq<Entry>)
    ensures Values(a + b) == Values(a) + Values(b)
    ensures Times(a + b) == Times(a) + Times(b)
    decreases |b|
  {
    if b == [] {
      assert a + b == a;
    } else {
      var b' := b[..|b| - 1];
      assert (a + b)[..|a + b| - 1] == a + b';
      ValuesAppend(a, b');
    }
  }

  lemma {:induction false} SumAppend(a: seq<int>, b: seq<int>)
    ensures Sum(a + b) == Sum(a) + Sum(b)
    decreases |b|
  {
    if b == [] {
      assert a + b == a;
    } else {
      var b' := b[..|b| - 1];
      assert (a + b)[..|a + b| - 1] == a + b';
      SumAppend(a, b');
    }
  }

  /** The fold over two concatenated pieces of output combines the folds over
      the pieces: durations and timestamps keep input order, counters add up. */
  lemma MetricsOfAppend(a: seq<Entry>, b: seq<Entry>)
    ensures MetricsOf(a + b).durations == MetricsOf(a).durations + MetricsOf(b).durations
    ensures MetricsOf(a + b).timestamps == MetricsOf(a).timestamps + MetricsOf(b).timestamps
    ensures MetricsOf(a + b).totalRequests == MetricsOf(a).totalRequests + MetricsOf(b).totalRequests
    ensures MetricsOf(a + b).failedRequests == MetricsOf(a).failedRequests + MetricsOf(b).failedRequests
  {
    SamplesAppend(a, b, DurationMetric);
    SamplesAppend(a, b, RequestsMetric);
    SamplesAppend(a, b, FailedMetric);
    ValuesAppend(Samples(a, DurationMetric), Samples(b, DurationMetric));
    ValuesAppend(Samples(a, RequestsMetric), Samples(b, RequestsMetric));
    ValuesAppend(Samples(a, FailedMetric), Samples(b, FailedMetric));
    SumAppend(Values(Samples(a, RequestsMetric)), Values(Samples(b, RequestsMetric)));
    SumAppend(Values(Samples(a, FailedMetric)), Values(Samples(b, FailedMetric)));
  }

  /** Every duration is the value of a duration sample, and there is one
      duration, with its timestamp beside it, per such sample. */
  lemma {:induction false} DurationsAreSampleValues(entries: seq<Entry>)
    ensures |MetricsOf(entries).durations| == |MetricsOf(entries).timestamps| == |Samples(entries, DurationMetric)|
    ensures forall k :: 0 <= k < |Samples(entries, DurationMetric)| ==>
      MetricsOf(entries).durations[k] == Samples(entries, DurationMetric)[k].value &&
      MetricsOf(entries).timestamps[k] == Samples(entries, DurationMetric)[k].time
  {
    ValuesIndex(Samples(entries, DurationMetric));
  }

  lemma {:induction false} ValuesIndex(es: seq<Entry>)
    ensures |Values(es)| == |Times(es)| == |es|
    ensures forall k :: 0 <= k < |es| ==> Values(es)[k] == es[k].value && Times(es)[k] == es[k].time
    decreases |es|
  {
    if es != [] {
      ValuesIndex(es[..|es| - 1]);
    }
  }

  // ---------------------------------------------------------------------------
  // Sorting and the 95th percentile
  // ---------------------------------------------------------------------------

  predicate SortedAsc(s: seq<int>)
  {
    forall i, j :: 0 <= i < j < |s| ==> s[i] <= s[j]
  }

  /** Inserts `x` before the first element of `s` that is not smaller. */
  function Insert(x: int, s: seq<int>): seq<int>
  {
    if s == [] || x <= s[0] then [x] + s else [s[0]] + Insert(x, s[1..])
  }

  lemma {:induction false} InsertPermutes(x: int, s: seq<int>)
    ensures multiset(Insert(x, s)) == multiset(s) + multiset{x}
    decreases |s|
  {
    if s != [] && x > s[0] {
      InsertPermutes(x, s[1..]);
      assert s == [s[0]] + s[1..];
    }
  }

  lemma {:induction false} InsertSorted(x: int, s: seq<int>)
    requires SortedAsc(s)
    ensures SortedAsc(Insert(x, s))
    decreases |s|
  {
    var r := Insert(x, s);
    if s == [] || x <= s[0] {
      forall i, j | 0 <= i < j < |r|
        ensures r[i] <= r[j]
      {
        if i > 0 {
          assert r[i] == s[i - 1] && r[j] == s[j - 1];
        } else if j > 1 {
          assert s[0] <= s[j - 1];
        }
      }
    } else {
      var t := s[1..];
      var r' := Insert(x, t);
      assert SortedAsc(t) by {
        forall i, j | 0 <= i < j < |t|
          ensures t[i] <= t[j]
        {
          assert t[i] == s[i + 1] && t[j] == s[j + 1];
        }
      }
      InsertSorted(x, t);
      InsertPermutes(x, t);
      forall i, j | 0 <= i < j < |r|
        ensures r[i] <= r[j]
      {
        if i > 0 {
          assert r[i] == r'[i - 1] && r[j] == r'[j - 1];
        } else {
          var y := r'[j - 1];
          assert y in multiset(r');
          assert y == x || y in multiset(t);
          if y != x {
            var k :| 0 <= k < |t| && t[k] == y;
            assert s[0] <= s[k + 1];
          }
        }
      }
    }
  }

  /** `durations.slice().sort((a, b) => a - b)`: a copy of the durations in
      nondecreasing order (the input is left as it was). */
  function SortAscending(s: seq<int>): seq<int>
  {
    if s == [] then [] else Insert(s[0], SortAscending(s[1..]))
  }

  /** The sorted copy is a nondecreasing permutation of its input. */
  lemma {:induction false} SortAscendingCorrect(s: seq<int>)
    ensures SortedAsc(SortAscending(s))
    ensures multiset(SortAscending(s)) == multiset(s)
    ensures |SortAscending(s)| == |s|
    decreases |s|
  {
    if s != [] {
      SortAscendingCorrect(s[1..]);
      InsertSorted(s[0], SortAscending(s[1..]));
      InsertPermutes(s[0], SortAscending(s[1..]));
      assert s == [s[0]] + s[1..];
      assert |SortAscending(s)| == |multiset(SortAscending(s))|;
    }
  }

  /** There is only one nondecreasing permutation of a sequence, so the sorted
      copy does not depend on which sorting algorithm produced it. */
  lemma {:induction false} SortedPermutationUnique(a: seq<int>, b: seq<int>)
    requires SortedAsc(a) && SortedAsc(b)
    requires multiset(a) == multiset(b)
    ensures a == b
    decreases |a|
  {
    if a == [] {
      assert |b| == |multiset(b)| == 0;
    } else {
      assert b != [] by { assert a[0] in multiset(b); }
      HeadIsLeast(a, b[0]);
      HeadIsLeast(b, a[0]);
      var x := a[0];
      assert b[0] == x;
      assert a == [a[0]] + a[1..];
      assert b == [b[0]] + b[1..];
      assert multiset(a[1..]) == multiset(b[1..]) by {
        assert multiset(a) == multiset{x} + multiset(a[1..]);
        assert multiset(b) == multiset{x} + multiset(b[1..]);
        assert multiset(a[1..]) == multiset(a) - multiset{x};
        assert multiset(b[1..]) == multiset(b) - multiset{x};
      }
      SortedTail(a);
      SortedTail(b);
      SortedPermutationUnique(a[1..], b[1..]);
    }
  }

  /** The head of a nondecreasing sequence is at most any of its elements. */
  lemma HeadIsLeast(s: seq<int>, v: int)
    requires SortedAsc(s) && s != []
    requires v in multiset(s)
    ensures s[0] <= v
  {
    var k :| 0 <= k < |s| && s[k] == v;
    if k > 0 {
      assert s[0] <= s[k];
    }
  }

  lemma SortedTail(s: seq<int>)
    requires SortedAsc(s) && s != []
    ensures SortedAsc(s[1..])
  {
    var t := s[1..];
    forall i, j | 0 <= i < j < |t|
      ensures t[i] <= t[j]
    {
      assert t[i] == s[i + 1] && t[j] == s[j + 1];
    }
  }

  /** `Math.floor(n * 0.95)`, written as the exact integer (95 * n) / 100. */
  function P95Index(n: nat): (k: nat)
    ensures n >= 1 ==> k < n
    ensures 100 * k <= 95 * n < 100 * (k + 1)
  {
    (95 * n) / 100
  }

  /** `sorted[Math.floor(sorted.length * 0.95)] || 0`. */
  function P95(sorted: seq<int>): int
  {
    if |sorted| == 0 then 0 else sorted[P95Index(|sorted|)]
  }

  /** The number of elements of `s` that are at most `v`. */
  function CountAtMost(s: seq<int>, v: int): nat
  {
    if s == [] then 0
    else CountAtMost(s[..|s| - 1], v) + (if s[|s| - 1] <= v then 1 else 0)
  }

  lemma {:induction false} CountAtMostAppend(a: seq<int>, b: seq<int>, v: int)
    ensures CountAtMost(a + b, v) == CountAtMost(a, v) + CountAtMost(b, v)
    decreases |b|
  {
    if b == [] {
      assert a + b == a;
    } else {
      var b' := b[..|b| - 1];
      assert (a + b)[..|a + b| - 1] == a + b';
      CountAtMostAppend(a, b', v);
    }
  }

  /** Counting depends on the multiset of elements only. */
  lemma {:induction false} CountAtMostPermutation(s: seq<int>, t: seq<int>, v: int)
    requires multiset(s) == multiset(t)
    ensures CountAtMost(s, v) == CountAtMost(t, v)
    decreases |s|
  {
    assert |s| == |multiset(s)| == |multiset(t)| == |t|;
    if s != [] {
      var x := s[|s| - 1];
      var s' := s[..|s| - 1];
      assert s == s' + [x];
      assert x in multiset(t);
      var j :| 0 <= j < |t| && t[j] == x;
      var t' := t[..j] + t[j + 1..];
      assert t == t[..j] + [x] + t[j + 1..];
      assert multiset(t') == multiset(t) - multiset{x};
      assert multiset(s') == multiset(s) - multiset{x};
      CountAtMostPermutation(s', t', v);
      CountAtMostAppend(t[..j] + [x], t[j + 1..], v);
      CountAtMostAppend(t[..j], [x], v);
      CountAtMostAppend(t[..j], t[j + 1..], v);
      assert [x][..0] == [];
    }
  }

  lemma {:induction false} CountAtMostAll(s: seq<int>, v: int)
    requires forall i :: 0 <= i < |s| ==> s[i] <= v
    ensures CountAtMost(s, v) == |s|
    decreases |s|
  {
    if s != [] {
      CountAtMostAll(s[..|s| - 1], v);
    }
  }

  /** The picked value is one of the durations, and more than 95% of the
      durations are at most that value. With no durations the pick is 0. */
  lemma P95IsPercentile(durations: seq<int>)
    ensures durations == [] ==> P95(SortAscending(durations)) == 0
    ensures durations != [] ==>
      P95(SortAscending(durations)) in durations &&
      100 * CountAtMost(durations, P95(SortAscending(durations))) > 95 * |durations|
  {
    var sorted := SortAscending(durations);
    SortAscendingCorrect(durations);
    if durations != [] {
      var k := P95Index(|durations|);
      var p := sorted[k];
      assert p in multiset(durations) by {
        assert p in multiset(sorted);
      }
      SortedCountAtMost(sorted, k);
      CountAtMostPermutation(sorted, durations, p);
    }
  }

  /** In a nondecreasing sequence, at least k + 1 elements are at most the k-th. */
  lemma SortedCountAtMost(sorted: seq<int>, k: nat)
    requires SortedAsc(sorted) && k < |sorted|
    ensures CountAtMost(sorted, sorted[k]) >= k + 1
  {
    var p := sorted[k];
    var low := sorted[..k + 1];
    forall i | 0 <= i < |low|
      ensures low[i] <= p
    {
      assert low[i] == sorted[i];
      if i < k {
        assert sorted[i] <= sorted[k];
      }
    }
    CountAtMostAll(low, p);
    assert sorted == low + sorted[k + 1..];
    CountAtMostAppend(low, sorted[k + 1..], p);
  }



  // ---------------------------------------------------------------------------
  // File names
  // ---------------------------------------------------------------------------

  predicate EndsWith(s: string, suffix: string)
  {
    |suffix| <= |s| && s[|s| - |suffix|..] == suffix
  }

  /** `pat` occurs in `s` at position `j`. */
  predicate OccursAt(s: string, pat: string, j: nat)
  {
    j + |pat| <= |s| && s[j..j + |pat|] == pat
  }

  /** The first position at or after `from` where `pat` occurs in `s`. */
  function IndexOfFrom(s: string, pat: string, from: nat): (r: Option<nat>)
    requires from <= |s|
    ensures r.Some? ==> from <= r.value && OccursAt(s, pat, r.value)
    ensures r.Some? ==> forall j :: from <= j < r.value ==> !OccursAt(s, pat, j)
    ensures r.None? ==> forall j :: from <= j ==> !OccursAt(s, pat, j)
    decreases |s| - from
  {
    if from + |pat| > |s| then None
    else if s[from..from + |pat|] == pat then Some(from)
    else IndexOfFrom(s, pat, from + 1)
  }

  /** `file.replace('.json', '')`: a string pattern replaces its first occurrence only. */
  function ScriptName(file: string): string
  {
    match IndexOfFrom(file, JsonSuffix, 0)
    case None => file
    case Some(i) => file[..i] + file[i + |JsonSuffix|..]
  }

  /** A file whose only ".json" is its suffix loses exactly that suffix. */
  lemma ScriptNameDropsSuffix(file: string)
    requires EndsWith(file, JsonSuffix)
    requires forall j :: 0 <= j < |file| - |JsonSuffix| ==> !OccursAt(file, JsonSuffix, j)
    ensures ScriptName(file) + JsonSuffix == file
  {
    var n := |file| - |JsonSuffix|;
    assert OccursAt(file, JsonSuffix, n);
    var r := IndexOfFrom(file, JsonSuffix, 0);
    assert r == Some(n);
    assert file[n + |JsonSuffix|..] == [];
    assert file == file[..n] + file[n..];
  }

  /** A file with an earlier ".json" loses that one and keeps its suffix. */
  lemma ScriptNameRemovesFirst()
    ensures ScriptName("a.json.json") == "a.json"
  {
    var file := "a.json.json";
    assert OccursAt(file, JsonSuffix, 1) by {
      assert file[1..6] == ".json";
    }
    assert !OccursAt(file, JsonSuffix, 0) by {
      assert file[0..5][0] == 'a';
    }
    var r := IndexOfFrom(file, JsonSuffix, 0);
    assert r == Some(1);
    assert file[..1] + file[6..] == "a.json";
  }

  function HistogramFile(scriptName: string): string { scriptName + "-histogram.png" }
  function TrendFile(scriptName: string): string { scriptName + "-trend.png" }
  function ResultFile(scriptName: string): string { scriptName + "-result.json" }

  /** The three output names of one script differ, so no output overwrites another. */
  lemma OutputNamesDistinct(scriptName: string)
    ensures HistogramFile(scriptName) != TrendFile(scriptName)
    ensures HistogramFile(scriptName) != ResultFile(scriptName)
    ensures TrendFile(scriptName) != ResultFile(scriptName)
  {
    var n := |scriptName|;
    assert HistogramFile(scriptName)[n + 1] == 'h';
    assert TrendFile(scriptName)[n + 1] == 't';
    assert ResultFile(scriptName)[n + 1] == 'r';
  }

  // ---------------------------------------------------------------------------
  // The Allure result
  // ---------------------------------------------------------------------------

  /** The four step titles, with the numbers they print. The average is kept
      as the two operands of its division. */
  datatype StepTitle =
    | TotalRequests(total: int)
    | FailedRequests(failed: int)
    | AverageDuration(sum: int, count: nat)
    | P95Duration(p95: int)

  datatype Step = Step(title: StepTitle, status: Status)

  datatype AllureResult = AllureResult(name: string, status: Status, steps: seq<Step>,
                                       attachments: seq<Attachment>, parameters: seq<Parameter>)

  function StatusOf(failedRequests: int): Status
  {
    if failedRequests > 0 then Failed else Passed
  }

  /** The result object of one script. */
  function Report(scriptName: string, m: Metrics, sorted: seq<int>): AllureResult
  {
    var status := StatusOf(m.failedRequests);
    AllureResult(
      scriptName + " performance test",
      status,
      [Step(TotalRequests(m.totalRequests), Passed),
       Step(FailedRequests(m.failedRequests), status),
       Step(AverageDuration(Sum(m.durations), |m.durations|), Passed),
       Step(P95Duration(P95(sorted)), Passed)],
      [Attachment("Response time histogram", "image/png", HistogramFile(scriptName)),
       Attachment("Response time trend", "image/png", TrendFile(scriptName))],
      [])
  }

  /** The result fails exactly when some request failed; the "Failed requests"
      step agrees with it and the other three steps always pass. */
  lemma ReportStatus(scriptName: string, m: Metrics, sorted: seq<int>)
    ensures Report(scriptName, m, sorted).status == Failed <==> m.failedRequests > 0
    ensures |Report(scriptName, m, sorted).steps| == 4
    ensures Report(scriptName, m, sorted).steps[1].status == Report(scriptName, m, sorted).status
    ensures forall k :: k in {0, 2, 3} ==> Report(scriptName, m, sorted).steps[k].status == Passed
    ensures Report(scriptName, m, sorted).parameters == []
  {
  }

  // ---------------------------------------------------------------------------
  // The conversion of a results directory
  // ---------------------------------------------------------------------------

  datatype Content =
    | Chart(labels: seq<int>, data: seq<int>)
    | ResultJson(result: AllureResult)

  /** A file written, by its path. */
  datatype Output = Output(path: string, content: Content)

  function InAllureDir(name: string): string { AllureDir + "/" + name }

  function Indices(n: nat): (r: seq<int>)
    ensures |r| == n && forall i :: 0 <= i < n ==> r[i] == i
  {
    if n == 0 then [] else Indices(n - 1) + [n - 1]
  }

  /** What is written for one result file: the histogram of the sorted
      durations against their ranks, the trend of the durations against their
      timestamps, and the Allure result. */
  function FileOutputs(file: string, entries: seq<Entry>): seq<Output>
  {
    var name := ScriptName(file);
    var m := MetricsOf(entries);
    var sorted := SortAscending(m.durations);
    [Output(InAllureDir(HistogramFile(name)), Chart(Indices(|sorted|), sorted)),
     Output(InAllureDir(TrendFile(name)), Chart(m.timestamps, m.durations)),
     Output(InAllureDir(ResultFile(name)), ResultJson(Report(name, m, sorted)))]
  }

  /** Converts one result file. */
  method ConvertFile(file: string, entries: seq<Entry>) returns (outs: seq<Output>)
    ensures outs == FileOutputs(file, entries)
  {
    var scriptName := ScriptName(file);
    var m := ExtractMetrics(entries);
    var sorted := SortAscending(m.durations);
    var histogramFile := HistogramFile(scriptName);
    var trendFile := TrendFile(scriptName);
    outs := [Output(InAllureDir(histogramFile), Chart(Indices(|sorted|), sorted)),
             Output(InAllureDir(trendFile), Chart(m.timestamps, m.durations)),
             Output(InAllureDir(ResultFile(scriptName)), ResultJson(Report(scriptName, m, sorted)))];
  }

  /** The histogram holds a nondecreasing permutation of the trend's data, which
      is the duration samples' values in input order; the two attachment sources
      name the two charts written, and the three paths differ. */
  lemma FileOutputsAgree(file: string, entries: seq<Entry>)
    ensures var outs := FileOutputs(file, entries);
      && outs[0].path == InAllureDir(outs[2].content.result.attachments[0].source)
      && outs[1].path == InAllureDir(outs[2].content.result.attachments[1].source)
      && SortedAsc(outs[0].content.data)
      && multiset(outs[0].content.data) == multiset(outs[1].content.data)
      && outs[1].content.data == Values(Samples(entries, DurationMetric))
      && outs[0].path != outs[1].path && outs[0].path != outs[2].path && outs[1].path != outs[2].path
  {
    var m := MetricsOf(entries);
    SortAscendingCorrect(m.durations);
    OutputNamesDistinct(ScriptName(file));
  }

  function JsonFiles(listing: seq<string>): (r: seq<string>)
    ensures forall f :: f in r <==> f in listing && EndsWith(f, JsonSuffix)
  {
    if listing == [] then []
    else
      var last := listing[|listing| - 1];
      JsonFiles(listing[..|listing| - 1]) + (if EndsWith(last, JsonSuffix) then [last] else [])
  }

  /** The outputs of `files`, each file's `convert(file)` after the previous ones. */
  function Concat(files: seq<string>, convert: string -> seq<Output>): seq<Output>
  {
    if files == [] then []
    else Concat(files[..|files| - 1], convert) + convert(files[|files| - 1])
  }

  /** When every file gives three outputs, the k-th group of three is the k-th file's. */
  lemma {:induction false} ConcatChunks(files: seq<string>, convert: string -> seq<Output>)
    requires forall f :: |convert(f)| == 3
    ensures |Concat(files, convert)| == 3 * |files|
    ensures forall k :: 0 <= k < |files| ==> Concat(files, convert)[3 * k..3 * k + 3] == convert(files[k])
    decreases |files|
  {
    if files != [] {
      var n := |files| - 1;
      var init := files[..n];
      var before := Concat(init, convert);
      var outs := convert(files[n]);
      ConcatChunks(init, convert);
      forall k | 0 <= k < |files|
        ensures (before + outs)[3 * k..3 * k + 3] == convert(files[k])
      {
        if k < n {
          assert (before + outs)[3 * k..3 * k + 3] == before[3 * k..3 * k + 3];
          assert files[k] == init[k];
        } else {
          assert (before + outs)[3 * k..3 * k + 3] == outs;
        }
      }
    }
  }

  /** The script: the `.json` entries of the listing, in listing order, are
      converted one after another (`read` stands for reading and parsing a
      file). With none, nothing is written and the exit code is 1. */
  method ConvertAll(listing: seq<string>, read: string -> seq<Entry>) returns (exitCode: int, written: seq<Output>)
    ensures JsonFiles(listing) == [] ==> exitCode == 1 && written == []
    ensures JsonFiles(listing) != [] ==> exitCode == 0
    ensures |written| == 3 * |JsonFiles(listing)|
    ensures forall k :: 0 <= k < |JsonFiles(listing)| ==>
      written[3 * k..3 * k + 3] == FileOutputs(JsonFiles(listing)[k], read(JsonFiles(listing)[k]))
  {
    var files := JsonFiles(listing);
    if |files| == 0 {
      return 1, [];
    }
    var convert := (f: string) => FileOutputs(f, read(f));
    written := [];
    for i := 0 to |files|
      invariant written == Concat(files[..i], convert)
    {
      var outs := ConvertFile(files[i], read(files[i]));
      assert files[..i + 1][..i] == files[..i];
      written := written + outs;
    }
    assert files[..|files|] == files;
    forall f
      ensures |convert(f)| == 3
    {
      assert convert(f) == FileOutputs(f, read(f));
    }
    ConcatChunks(files, convert);
    forall k | 0 <= k < |files|
      ensures written[3 * k..3 * k + 3] == FileOutputs(files[k], read(files[k]))
    {
      assert written[3 * k..3 * k + 3] == convert(files[k]);
    }
    exitCode := 0;
  }
}
