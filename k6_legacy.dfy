/** The older k6-to-Allure converter, performance-tests/convert-k6-to-allure.js:
    it reads one results file and writes a single Allure result with one step
    per `http_req_duration` entry, whatever the entry's type. */
module K6LegacyConverter {
  import opened K6
  import K6Converter

  /** A step of the result (its `start`/`stop` clock readings are left out). */
  datatype LegacyStep = LegacyStep(name: string, status: Status, attachments: seq<Attachment>)

  datatype LegacyResult = LegacyResult(name: string, status: Status, steps: seq<LegacyStep>,
                                       attachments: seq<Attachment>, parameters: seq<Parameter>)

  const ResultName := "k6 performance test"
  const ResultPath := AllureDir + "/k6-result.json"
  const DurationStep := LegacyStep(DurationMetric, Passed, [])

  /** The steps the loop appends for `metrics`: one per duration entry, in order. */
  function DurationSteps(metrics: seq<Entry>): seq<LegacyStep>
  {
    if metrics == [] then []
    else
      var last := metrics[|metrics| - 1];
      DurationSteps(metrics[..|metrics| - 1]) + (if last.metric == DurationMetric then [DurationStep] else [])
  }

  /** Builds the result and the path it is written to. */
  method Convert(metrics: seq<Entry>) returns (path: string, result: LegacyResult)
    ensures path == ResultPath
    ensures result.name == ResultName && result.status == Passed
    ensures result.attachments == [] && result.parameters == []
    ensures result.steps == DurationSteps(metrics)
  {
    var steps: seq<LegacyStep> := [];
    for i := 0 to |metrics|
      invariant steps == DurationSteps(metrics[..i])
    {
      assert metrics[..i + 1][..i] == metrics[..i];
      if metrics[i].metric == DurationMetric {
        steps := steps + [LegacyStep(DurationMetric, Passed, [])];
      }
    }
    assert metrics[..|metrics|] == metrics;
    result := LegacyResult(ResultName, Passed, steps, [], []);
    path := AllureDir + "/k6-result.json";
  }

  /** There is exactly one step per `http_req_duration` entry, and every step is
      named after that metric, passes and has no attachments. */
  lemma {:induction false} DurationStepsShape(metrics: seq<Entry>)
    ensures |DurationSteps(metrics)| == CountMetric(metrics, DurationMetric)
    ensures forall k :: 0 <= k < |DurationSteps(metrics)| ==> DurationSteps(metrics)[k] == DurationStep
    decreases |metrics|
  {
    if metrics != [] {
      DurationStepsShape(metrics[..|metrics| - 1]);
    }
  }

  /** Steps follow the input: the steps of two pieces of output are the steps of
      the first piece followed by those of the second. */
  lemma {:induction false} DurationStepsAppend(a: seq<Entry>, b: seq<Entry>)
    ensures DurationSteps(a + b) == DurationSteps(a) + DurationSteps(b)
    decreases |b|
  {
    if b == [] {
      assert a + b == a;
    } else {
      var b' := b[..|b| - 1];
      assert (a + b)[..|a + b| - 1] == a + b';
      DurationStepsAppend(a, b');
    }
  }

  /** Unlike the newer converter, which keeps only samples, this one makes a
      step for every duration entry, so it never makes fewer steps than the
      newer converter has durations, and makes more exactly when some duration
      entry is not a sample. */
  lemma {:induction false} CountsEveryType(metrics: seq<Entry>)
    ensures |DurationSteps(metrics)| >= |K6Converter.MetricsOf(metrics).durations|
    ensures |DurationSteps(metrics)| == |K6Converter.MetricsOf(metrics).durations|
      <==> forall e :: e in metrics && e.metric == DurationMetric ==> e.typ == PointType
    decreases |metrics|
  {
    K6Converter.DurationsAreSampleValues(metrics);
    if metrics != [] {
      var init := metrics[..|metrics| - 1];
      var last := metrics[|metrics| - 1];
      assert metrics == init + [last];
      CountsEveryType(init);
      K6Converter.DurationsAreSampleValues(init);
      assert |DurationSteps(metrics)| == |DurationSteps(init)| + (if last.metric == DurationMetric then 1 else 0);
      assert |K6Converter.Samples(metrics, DurationMetric)|
        == |K6Converter.Samples(init, DurationMetric)| + (if K6Converter.IsSample(last, DurationMetric) then 1 else 0);
      if last.metric == DurationMetric && last.typ != PointType {
        assert last in metrics;
      }
    }
  }
}
