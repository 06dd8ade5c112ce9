/** The four request bodies the builder tests expect, for one query each,
    with the range bounds written wherever the expected text holds the
    from and to placeholders. The queries are inputs chosen to produce
    those bodies. */
module QueryCases {
  import opened Wrappers
  import opened Text
  import opened Json
  import opened QueryBuilder

  /** A histogram's settings with their keys written in sorted order. */
  lemma SortedHistogram(field: string, from: int, to: int)
    ensures HistogramSettings(field, None, from, to) == JObj(map[
      "extended_bounds" := JObj(map["max" := JStr(IntToString(to)), "min" := JStr(IntToString(from))]),
      "field" := JStr(field), "format" := JStr("epoch_millis"), "min_doc_count" := JInt(0)])
  {
    var f, t := IntToString(from), IntToString(to);
    assert map["min" := JStr(f), "max" := JStr(t)] == map["max" := JStr(t), "min" := JStr(f)];
  }

  lemma SortedHistogramWithInterval(field: string, interval: string, from: int, to: int)
    ensures HistogramSettings(field, Some(interval), from, to) == JObj(map[
      "extended_bounds" := JObj(map["max" := JStr(IntToString(to)), "min" := JStr(IntToString(from))]),
      "field" := JStr(field), "format" := JStr("epoch_millis"), "interval" := JStr(interval), "min_doc_count" := JInt(0)])
  {
    var f, t := IntToString(from), IntToString(to);
    assert map["min" := JStr(f), "max" := JStr(t)] == map["max" := JStr(t), "min" := JStr(f)];
  }

  // ---------------------------------------------------------------------
  // An average of a scripted value, with a moving average of it.

  function AvgWithMovingAvg(): Query {
    Query("timestamp", "(test:query) AND (name:sample)",
      [DateHistogram("2", "timestamp", Some("200ms"))],
      [FieldMetric("1", "avg", "value", map["script" := JObj(map["inline" := JStr("_value * 2")])]),
       PipelineMetric("3", "moving_avg", "1", map["window" := JInt(5), "model" := JStr("simple"), "minimize" := JBool(false)])])
  }

  function ExpectedAvgWithMovingAvg(from: string, to: string): Json {
    JObj(map[
      "size" := JInt(0),
      "query" := JObj(map["bool" := JObj(map["filter" := JArr([
        JObj(map["range" := JObj(map["timestamp" := JObj(map[
          "gte" := JStr(from), "lte" := JStr(to), "format" := JStr("epoch_millis")])])]),
        JObj(map["query_string" := JObj(map[
          "analyze_wildcard" := JBool(true), "query" := JStr("(test:query) AND (name:sample)")])])])])]),
      "aggs" := JObj(map["2" := JObj(map[
        "date_histogram" := JObj(map[
          "interval" := JStr("200ms"), "field" := JStr("timestamp"), "min_doc_count" := JInt(0),
          "extended_bounds" := JObj(map["min" := JStr(from), "max" := JStr(to)]), "format" := JStr("epoch_millis")]),
        "aggs" := JObj(map[
          "1" := JObj(map["avg" := JObj(map["field" := JStr("value"), "script" := JObj(map["inline" := JStr("_value * 2")])])]),
          "3" := JObj(map["moving_avg" := JObj(map[
            "buckets_path" := JStr("1"), "window" := JInt(5), "model" := JStr("simple"), "minimize" := JBool(false)])])])])])])
  }

  /** The average and the moving average of it, keyed by their ids. */
  lemma AvgWithMovingAvgMetrics()
    ensures MetricAggs(AvgWithMovingAvg().metrics) == map[
      "1" := JObj(map["avg" := JObj(map["field" := JStr("value"), "script" := JObj(map["inline" := JStr("_value * 2")])])]),
      "3" := JObj(map["moving_avg" := JObj(map[
        "buckets_path" := JStr("1"), "window" := JInt(5), "model" := JStr("simple"), "minimize" := JBool(false)])])]
  {
    var m1 := FieldMetric("1", "avg", "value", map["script" := JObj(map["inline" := JStr("_value * 2")])]);
    var m3 := PipelineMetric("3", "moving_avg", "1", map["window" := JInt(5), "model" := JStr("simple"), "minimize" := JBool(false)]);
    var ms := AvgWithMovingAvg().metrics;
    assert ms == [m1, m3];
    assert ms[..1] == [m1] && [m1][..0] == [];
    assert m1.settings["field" := JStr("value")] == map["field" := JStr("value"), "script" := JObj(map["inline" := JStr("_value * 2")])];
    assert m3.settings["buckets_path" := JStr("1")] == map[
      "buckets_path" := JStr("1"), "window" := JInt(5), "model" := JStr("simple"), "minimize" := JBool(false)];
  }

  /** The metrics sit in the one date histogram, whose buckets span the range. */
  lemma AvgWithMovingAvgBody(from: int, to: int, esVersion: int)
    ensures Body(AvgWithMovingAvg(), esVersion, from, to) == ExpectedAvgWithMovingAvg(IntToString(from), IntToString(to))
  {
    var q := AvgWithMovingAvg();
    AvgWithMovingAvgMetrics();
    assert HistogramSettings("timestamp", Some("200ms"), from, to) == JObj(map[
      "interval" := JStr("200ms"), "field" := JStr("timestamp"), "min_doc_count" := JInt(0),
      "extended_bounds" := JObj(map["min" := JStr(IntToString(from)), "max" := JStr(IntToString(to))]),
      "format" := JStr("epoch_millis")]);
    assert q.bucketAggs[1..] == [];
  }

  // ---------------------------------------------------------------------
  // A query text with wildcards and escaped quotes, summed per bucket of a
  // histogram with no interval set.

  function WildcardsAndQuotes(): Query {
    Query("timestamp", "scope:$location.leagueconnect.api AND name:*CreateRegistration AND name:\"*.201-responses.rate\"",
      WildcardsAndQuotesBuckets(), SumOfValue())
  }

  function WildcardsAndQuotesBuckets(): seq<BucketAgg> {
    [DateHistogram("2", "timestamp", None)]
  }

  /** The sum of the value field, as metric "1". */
  function SumOfValue(): seq<Metric> {
    [FieldMetric("1", "sum", "value", map[])]
  }

  function ExpectedWildcardsAndQuotes(from: string, to: string): Json {
    JObj(map[
      "size" := JInt(0),
      "query" := JObj(map["bool" := JObj(map["filter" := JArr([
        JObj(map["range" := JObj(map["timestamp" := JObj(map[
          "gte" := JStr(from), "lte" := JStr(to), "format" := JStr("epoch_millis")])])]),
        JObj(map["query_string" := JObj(map[
          "analyze_wildcard" := JBool(true),
          "query" := JStr("scope:$location.leagueconnect.api AND name:*CreateRegistration AND name:\"*.201-responses.rate\"")])])])])]),
      "aggs" := JObj(map["2" := JObj(map[
        "aggs" := JObj(map["1" := JObj(map["sum" := JObj(map["field" := JStr("value")])])]),
        "date_histogram" := JObj(map[
          "extended_bounds" := JObj(map["max" := JStr(to), "min" := JStr(from)]),
          "field" := JStr("timestamp"), "format" := JStr("epoch_millis"), "min_doc_count" := JInt(0)])])])])
  }

  lemma SumOfValueAggs()
    ensures MetricAggs(SumOfValue()) == map["1" := JObj(map["sum" := JObj(map["field" := JStr("value")])])]
  {
    assert SumOfValue()[..0] == [];
  }

  /** The sum sits in a histogram with no interval. */
  lemma WildcardsAndQuotesAggs(from: int, to: int, esVersion: int)
    ensures Aggs(WildcardsAndQuotesBuckets(), SumOfValue(), esVersion, from, to) == map["2" := JObj(map[
      "aggs" := JObj(map["1" := JObj(map["sum" := JObj(map["field" := JStr("value")])])]),
      "date_histogram" := JObj(map[
        "extended_bounds" := JObj(map["max" := JStr(IntToString(to)), "min" := JStr(IntToString(from))]),
        "field" := JStr("timestamp"), "format" := JStr("epoch_millis"), "min_doc_count" := JInt(0)])])]
  {
    var bs := WildcardsAndQuotesBuckets();
    var f, t := IntToString(from), IntToString(to);
    SumOfValueAggs();
    var leaves := map["1" := JObj(map["sum" := JObj(map["field" := JStr("value")])])];
    SortedHistogram("timestamp", from, to);
    var hist := JObj(map[
      "extended_bounds" := JObj(map["max" := JStr(t), "min" := JStr(f)]),
      "field" := JStr("timestamp"), "format" := JStr("epoch_millis"), "min_doc_count" := JInt(0)]);
    assert map["date_histogram" := hist, "aggs" := JObj(leaves)] == map["aggs" := JObj(leaves), "date_histogram" := hist];
    assert bs[1..] == [];
  }

  /** The query text reaches the body unchanged. */
  lemma WildcardsAndQuotesBody(from: int, to: int, esVersion: int)
    ensures Body(WildcardsAndQuotes(), esVersion, from, to) == ExpectedWildcardsAndQuotes(IntToString(from), IntToString(to))
  {
    WildcardsAndQuotesAggs(from, to, esVersion);
  }

  // ---------------------------------------------------------------------
  // A sum per histogram bucket within each of the top ten terms.

  function TermAggs(): Query {
    Query("timestamp", "(scope:*.hmp.metricsd) AND (name_raw:builtin.general.*_instance_count)",
      TermAggsBuckets(), SumOfValue())
  }

  function TermAggsBuckets(): seq<BucketAgg> {
    [Terms("4", "name_raw", 10, "desc"), DateHistogram("2", "timestamp", Some("200ms"))]
  }

  function ExpectedTermAggs(from: string, to: string): Json {
    JObj(map[
      "size" := JInt(0),
      "query" := JObj(map["bool" := JObj(map["filter" := JArr([
        JObj(map["range" := JObj(map["timestamp" := JObj(map[
          "gte" := JStr(from), "lte" := JStr(to), "format" := JStr("epoch_millis")])])]),
        JObj(map["query_string" := JObj(map[
          "analyze_wildcard" := JBool(true),
          "query" := JStr("(scope:*.hmp.metricsd) AND (name_raw:builtin.general.*_instance_count)")])])])])]),
      "aggs" := JObj(map["4" := JObj(map[
        "aggs" := JObj(map["2" := JObj(map[
          "aggs" := JObj(map["1" := JObj(map["sum" := JObj(map["field" := JStr("value")])])]),
          "date_histogram" := JObj(map[
            "extended_bounds" := JObj(map["max" := JStr(to), "min" := JStr(from)]),
            "field" := JStr("timestamp"), "format" := JStr("epoch_millis"), "interval" := JStr("200ms"),
            "min_doc_count" := JInt(0)])])]),
        "terms" := JObj(map["field" := JStr("name_raw"), "order" := JObj(map["_term" := JStr("desc")]), "size" := JInt(10)])])])])
  }

  /** The histogram with the sum inside it. */
  lemma TermAggsHistogram(from: int, to: int, esVersion: int)
    ensures Aggs(TermAggsBuckets()[1..], SumOfValue(), esVersion, from, to) == map["2" := JObj(map[
      "aggs" := JObj(map["1" := JObj(map["sum" := JObj(map["field" := JStr("value")])])]),
      "date_histogram" := JObj(map[
        "extended_bounds" := JObj(map["max" := JStr(IntToString(to)), "min" := JStr(IntToString(from))]),
        "field" := JStr("timestamp"), "format" := JStr("epoch_millis"), "interval" := JStr("200ms"),
        "min_doc_count" := JInt(0)])])]
  {
    var bs := TermAggsBuckets();
    var f, t := IntToString(from), IntToString(to);
    SumOfValueAggs();
    var leaves := map["1" := JObj(map["sum" := JObj(map["field" := JStr("value")])])];
    SortedHistogramWithInterval("timestamp", "200ms", from, to);
    var hist := JObj(map[
      "extended_bounds" := JObj(map["max" := JStr(t), "min" := JStr(f)]),
      "field" := JStr("timestamp"), "format" := JStr("epoch_millis"), "interval" := JStr("200ms"),
      "min_doc_count" := JInt(0)]);
    assert map["date_histogram" := hist, "aggs" := JObj(leaves)] == map["aggs" := JObj(leaves), "date_histogram" := hist];
    assert bs[1..] == [DateHistogram("2", "timestamp", Some("200ms"))];
    assert bs[1..][1..] == [];
  }

  /** Under Elasticsearch 2 the top ten terms, by the term descending, wrap
      the histogram, which wraps the sum. */
  lemma TermAggsBody(from: int, to: int, esVersion: int)
    requires esVersion == 2
    ensures Body(TermAggs(), esVersion, from, to) == ExpectedTermAggs(IntToString(from), IntToString(to))
  {
    TermAggsTree(from, to, esVersion);
  }

  lemma TermAggsTree(from: int, to: int, esVersion: int)
    requires esVersion == 2
    ensures Aggs(TermAggsBuckets(), SumOfValue(), esVersion, from, to)
            == ExpectedTermAggs(IntToString(from), IntToString(to)).fields["aggs"].fields
  {
    var bs := TermAggsBuckets();
    TermAggsHistogram(from, to, esVersion);
    var inner := Aggs(bs[1..], SumOfValue(), esVersion, from, to);
    var terms := JObj(map["field" := JStr("name_raw"), "order" := JObj(map["_term" := JStr("desc")]), "size" := JInt(10)]);
    assert BucketSettings(bs[0], esVersion, from, to) == terms;
    assert map["terms" := terms, "aggs" := JObj(inner)] == map["aggs" := JObj(inner), "terms" := terms];
  }

  // ---------------------------------------------------------------------
  // A histogram within one named filter, with no metric and no query text.

  function FiltersAggs(): Query {
    Query("time", "",
      [Filters("3", map["hello" := "host:\"67.65.185.232\""]), DateHistogram("2", "time", Some("200ms"))],
      [])
  }

  function ExpectedFiltersAggs(from: string, to: string): Json {
    JObj(map[
      "size" := JInt(0),
      "query" := JObj(map["bool" := JObj(map["filter" := JArr([
        JObj(map["range" := JObj(map["time" := JObj(map[
          "gte" := JStr(from), "lte" := JStr(to), "format" := JStr("epoch_millis")])])]),
        JObj(map["query_string" := JObj(map["analyze_wildcard" := JBool(true), "query" := JStr("*")])])])])]),
      "aggs" := JObj(map["3" := JObj(map[
        "filters" := JObj(map["filters" := JObj(map["hello" := JObj(map["query_string" := JObj(map[
          "query" := JStr("host:\"67.65.185.232\""), "analyze_wildcard" := JBool(true)])])])]),
        "aggs" := JObj(map["2" := JObj(map[
          "date_histogram" := JObj(map[
            "interval" := JStr("200ms"), "field" := JStr("time"), "min_doc_count" := JInt(0),
            "extended_bounds" := JObj(map["min" := JStr(from), "max" := JStr(to)]), "format" := JStr("epoch_millis")]),
          "aggs" := JObj(map[])])])])])])
  }

  /** The histogram inside the filter, with empty aggregations. */
  lemma FiltersAggsHistogram(from: int, to: int, esVersion: int)
    ensures Aggs(FiltersAggs().bucketAggs[1..], [], esVersion, from, to) == map["2" := JObj(map[
      "date_histogram" := JObj(map[
        "interval" := JStr("200ms"), "field" := JStr("time"), "min_doc_count" := JInt(0),
        "extended_bounds" := JObj(map["min" := JStr(IntToString(from)), "max" := JStr(IntToString(to))]),
        "format" := JStr("epoch_millis")]),
      "aggs" := JObj(map[])])]
  {
    var q := FiltersAggs();
    assert HistogramSettings("time", Some("200ms"), from, to) == JObj(map[
      "interval" := JStr("200ms"), "field" := JStr("time"), "min_doc_count" := JInt(0),
      "extended_bounds" := JObj(map["min" := JStr(IntToString(from)), "max" := JStr(IntToString(to))]),
      "format" := JStr("epoch_millis")]);
    assert q.bucketAggs[1..] == [DateHistogram("2", "time", Some("200ms"))];
    assert q.bucketAggs[1..][1..] == [];
  }

  /** The filter's query becomes a query_string clause of its own. */
  lemma FiltersAggsFilter(esVersion: int, from: int, to: int)
    ensures BucketSettings(FiltersAggs().bucketAggs[0], esVersion, from, to)
         == JObj(map["filters" := JObj(map["hello" := JObj(map["query_string" := JObj(map[
              "query" := JStr("host:\"67.65.185.232\""), "analyze_wildcard" := JBool(true)])])])])
  {
    var filters := map["hello" := "host:\"67.65.185.232\""];
    assert (map name | name in filters :: QueryString(filters[name])) == map["hello" := QueryString("host:\"67.65.185.232\"")];
    assert map["analyze_wildcard" := JBool(true), "query" := JStr("host:\"67.65.185.232\"")]
        == map["query" := JStr("host:\"67.65.185.232\""), "analyze_wildcard" := JBool(true)];
  }

  /** The filters wrap the histogram, which carries empty aggregations; the
      empty query text is searched for as "*". */
  lemma FiltersAggsBody(from: int, to: int, esVersion: int)
    ensures Body(FiltersAggs(), esVersion, from, to) == ExpectedFiltersAggs(IntToString(from), IntToString(to))
  {
    assert QueryText(FiltersAggs().rawQuery) == "*";
    FiltersAggsHistogram(from, to, esVersion);
    FiltersAggsFilter(esVersion, from, to);
  }
}
