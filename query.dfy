/** The request builder of the Elasticsearch datasource (Query.Build): from a
    query model, the datasource settings and a time range in epoch
    milliseconds, the two lines of a multi-search request, a header naming
    the indices and the search body. Both are JSON trees. */
module QueryBuilder {
  import opened Wrappers
  import opened Text
  import opened Json
  import opened IndexPattern

  /** The datasource settings the builder reads: the index pattern, its
      interval setting and the Elasticsearch major version (2, 5, 56, ...). */
  datatype DataSource = DataSource(database: string, interval: string, esVersion: int)

  /** A metric aggregation. A field metric (avg, sum, ...) reads a document
      field; a pipeline metric (moving_avg) reads the output of the sibling
      metric whose id it names. `settings` are the metric's own options. */
  datatype Metric =
    | FieldMetric(id: string, kind: string, field: string, settings: map<string, Json>)
    | PipelineMetric(id: string, kind: string, pipelineAgg: string, settings: map<string, Json>)

  /** A bucket aggregation. */
  datatype BucketAgg =
    | DateHistogram(id: string, field: string, interval: Option<string>)
    | Terms(id: string, field: string, size: int, order: string)
    | Filters(id: string, filters: map<string, string>)

  /** A query as the panel edits it: bucket aggregations from outermost to
      innermost, and the metrics computed in every innermost bucket. */
  datatype Query = Query(timeField: string, rawQuery: string, bucketAggs: seq<BucketAgg>, metrics: seq<Metric>)

  const EpochMillis: string := "epoch_millis"

  /** A Lucene query_string clause with wildcard analysis on. */
  function QueryString(text: string): Json {
    JObj(map["query_string" := JObj(map["analyze_wildcard" := JBool(true), "query" := JStr(text)])])
  }

  /** The time filter: `field` between the bounds, inclusive, as epoch-ms strings. */
  function RangeClause(field: string, from: int, to: int): Json {
    JObj(map["range" := JObj(map[field := JObj(map[
      "gte" := JStr(IntToString(from)),
      "lte" := JStr(IntToString(to)),
      "format" := JStr(EpochMillis)])])])
  }

  /** The query text searched for: the raw text, or every document ("*")
      when the raw text is empty. */
  function QueryText(raw: string): (text: string)
    ensures text != ""
    ensures raw != "" ==> text == raw
  {
    if raw == "" then "*" else raw
  }

  /** The query part: a bool query whose filters are the time range and the query text. */
  function QueryClause(q: Query, from: int, to: int): Json {
    JObj(map["bool" := JObj(map["filter" := JArr([RangeClause(q.timeField, from, to), QueryString(QueryText(q.rawQuery))])])])
  }

  /** A metric keyed by its type: its settings plus the field it reads or,
      for a pipeline metric, the path of the metric it reads. */
  function MetricLeaf(m: Metric): Json {
    match m
    case FieldMetric(_, kind, field, settings) => JObj(map[kind := JObj(settings["field" := JStr(field)])])
    case PipelineMetric(_, kind, ref, settings) => JObj(map[kind := JObj(settings["buckets_path" := JStr(ref)])])
  }

  /** The metrics keyed by id; a later metric with the same id replaces an earlier one. */
  function MetricAggs(ms: seq<Metric>): (aggs: map<string, Json>)
    ensures forall i :: 0 <= i < |ms| ==> ms[i].id in aggs
    ensures ms != [] ==> aggs[ms[|ms| - 1].id] == MetricLeaf(ms[|ms| - 1])
  {
    if ms == [] then map[] else MetricAggs(ms[..|ms| - 1])[ms[|ms| - 1].id := MetricLeaf(ms[|ms| - 1])]
  }

  /** The key terms are ordered by: the term itself is "_term" before
      Elasticsearch 6 and "_key" from then on. */
  function TermsOrderKey(esVersion: int): string {
    if esVersion >= 60 then "_key" else "_term"
  }

  /** The settings of a date histogram: one bucket per interval over the
      whole range, empty buckets kept, keys as epoch milliseconds. */
  function HistogramSettings(field: string, interval: Option<string>, from: int, to: int): Json {
    var base := map[
      "field" := JStr(field),
      "min_doc_count" := JInt(0),
      "format" := JStr(EpochMillis),
      "extended_bounds" := JObj(map["min" := JStr(IntToString(from)), "max" := JStr(IntToString(to))])];
    JObj(if interval.Some? then base["interval" := JStr(interval.value)] else base)
  }

  /** The key naming a bucket aggregation's type. */
  function BucketType(b: BucketAgg): string {
    match b
    case DateHistogram(_, _, _) => "date_histogram"
    case Terms(_, _, _, _) => "terms"
    case Filters(_, _) => "filters"
  }

  function BucketSettings(b: BucketAgg, esVersion: int, from: int, to: int): Json {
    match b
    case DateHistogram(_, field, interval) => HistogramSettings(field, interval, from, to)
    case Terms(_, field, size, order) =>
      JObj(map["field" := JStr(field), "order" := JObj(map[TermsOrderKey(esVersion) := JStr(order)]), "size" := JInt(size)])
    case Filters(_, filters) =>
      JObj(map["filters" := JObj(map name | name in filters :: QueryString(filters[name]))])
  }

  /** The aggregation tree: each bucket aggregation holds the next one under
      "aggs", and the innermost holds the metrics. */
  function Aggs(bs: seq<BucketAgg>, ms: seq<Metric>, esVersion: int, from: int, to: int): (aggs: map<string, Json>)
    ensures bs != [] ==> aggs.Keys == {bs[0].id}
    ensures bs == [] ==> forall i :: 0 <= i < |ms| ==> ms[i].id in aggs
    decreases |bs|
  {
    if bs == [] then MetricAggs(ms)
    else map[bs[0].id := JObj(map[
      BucketType(bs[0]) := BucketSettings(bs[0], esVersion, from, to),
      "aggs" := JObj(Aggs(bs[1..], ms, esVersion, from, to))])]
  }

  /** The search body: no hits, only aggregations over the filtered documents. */
  function Body(q: Query, esVersion: int, from: int, to: int): (body: Json)
    ensures body.JObj? && body.fields.Keys == {"size", "query", "aggs"}
    ensures body.fields["size"] == JInt(0)
  {
    JObj(map[
      "size" := JInt(0),
      "query" := QueryClause(q, from, to),
      "aggs" := JObj(Aggs(q.bucketAggs, q.metrics, esVersion, from, to))])
  }

  /** The header line: the indices the range touches. */
  function Header(ds: DataSource, from: int, to: int): Json
    requires ParseInterval(ds.interval).Some?
  {
    JObj(map["index" := JStr(IndexList(ds.database, ParseInterval(ds.interval).value, from, to))])
  }

  /** The request, line by line: the header, then the body. */
  function Build(q: Query, ds: DataSource, from: int, to: int): (lines: seq<Json>)
    requires ParseInterval(ds.interval).Some?
    ensures |lines| == 2
  {
    [Header(ds, from, to), Body(q, ds.esVersion, from, to)]
  }
}
