/** What both k6-to-Allure converters read and write. k6 writes one JSON object
    per line; the converters only look at its `metric`, its `type` ("Point" for a
    sample, "Metric" for a declaration) and, for a sample, `data.value` and
    `data.time`. Values are modelled as integers (milliseconds, counts, 0/1). */
module K6 {

  /** One parsed line of k6 output. */
  datatype Entry = Entry(metric: string, typ: string, value: int, time: int)

  /** An Allure status. */
  datatype Status = Passed | Failed

  /** An Allure attachment: a title, a MIME type and the file it points to. */
  datatype Attachment = Attachment(name: string, mime: string, source: string)

  /** An Allure parameter. */
  datatype Parameter = Parameter(name: string, value: string)

  const DurationMetric := "http_req_duration"
  const RequestsMetric := "http_reqs"
  const FailedMetric := "http_req_failed"
  const PointType := "Point"
  const AllureDir := "allure-results"

  /** The number of entries, of any type, whose metric is `metric`. */
  function CountMetric(entries: seq<Entry>, metric: string): nat
  {
    if entries == [] then 0
    else CountMetric(entries[..|entries| - 1], metric) + (if entries[|entries| - 1].metric == metric then 1 else 0)
  }
}
