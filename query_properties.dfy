/** What every request body promises, whatever the query: its shape, the
    time filter, the nesting of bucket aggregations and the metrics in the
    innermost bucket. */
module QueryProperties {
  import opened Wrappers
  import opened Text
  import opened Json
  import opened IndexPattern
  import opened QueryBuilder

  /** The integer a decimal string under `path` denotes. */
  function BoundAt(j: Json, path: seq<string>): Option<int> {
    match Get(j, path)
    case Some(JStr(s)) => ParseInt(s)
    case _ => None
  }

  /** The body is the second line; the header names the indices of the
      range, and the pattern itself when no interval is set. */
  lemma BuildLines(q: Query, ds: DataSource, from: int, to: int)
    requires ParseInterval(ds.interval).Some?
    ensures Build(q, ds, from, to)[1] == Body(q, ds.esVersion, from, to)
    ensures Get(Build(q, ds, from, to)[0], ["index"])
            == Some(JStr(IndexList(ds.database, ParseInterval(ds.interval).value, from, to)))
    ensures ds.interval == "" ==> Get(Build(q, ds, from, to)[0], ["index"]) == Some(JStr(ds.database))
  {
    GetKey(map["index" := JStr(IndexList(ds.database, ParseInterval(ds.interval).value, from, to))], "index", []);
  }

  /** A body has exactly the keys size, query and aggs, asks for no hits,
      and filters by the range and then the query text. */
  lemma BodyShape(q: Query, esVersion: int, from: int, to: int)
    ensures Body(q, esVersion, from, to).JObj?
    ensures Body(q, esVersion, from, to).fields.Keys == {"size", "query", "aggs"}
    ensures Get(Body(q, esVersion, from, to), ["size"]) == Some(JInt(0))
    ensures Get(Body(q, esVersion, from, to), ["query", "bool", "filter"])
            == Some(JArr([RangeClause(q.timeField, from, to), QueryString(QueryText(q.rawQuery))]))
    ensures Get(Body(q, esVersion, from, to), ["aggs"]) == Some(JObj(Aggs(q.bucketAggs, q.metrics, esVersion, from, to)))
  {
    var body := Body(q, esVersion, from, to);
    GetKey(body.fields, "size", []);
    GetKey(body.fields, "aggs", []);
    GetPath3(body, "query", "bool", "filter");
  }

  /** A bound written as a decimal string parses back to itself. */
  lemma BoundOf(j: Json, path: seq<string>, n: int)
    requires Get(j, path) == Some(JStr(IntToString(n)))
    ensures BoundAt(j, path) == Some(n)
  {
    ParseIntOfIntToString(n);
  }

  /** The range clause holds only the time field, whose bounds parse back
      to the range's bounds. */
  lemma RangeBounds(field: string, from: int, to: int)
    ensures RangeClause(field, from, to).JObj? && RangeClause(field, from, to).fields.Keys == {"range"}
    ensures RangeClause(field, from, to).fields["range"].JObj?
    ensures RangeClause(field, from, to).fields["range"].fields.Keys == {field}
    ensures BoundAt(RangeClause(field, from, to), ["range", field, "gte"]) == Some(from)
    ensures BoundAt(RangeClause(field, from, to), ["range", field, "lte"]) == Some(to)
    ensures Get(RangeClause(field, from, to), ["range", field, "format"]) == Some(JStr(EpochMillis))
  {
    var r := RangeClause(field, from, to);
    GetPath3(r, "range", field, "gte");
    GetPath3(r, "range", field, "lte");
    GetPath3(r, "range", field, "format");
    BoundOf(r, ["range", field, "gte"], from);
    BoundOf(r, ["range", field, "lte"], to);
  }

  /** A query with an empty text searches every document: the body's
      query_string clause asks for "*". */
  lemma EmptyQueryMatchesAll(q: Query, esVersion: int, from: int, to: int)
    requires q.rawQuery == ""
    ensures Get(Body(q, esVersion, from, to), ["query", "bool", "filter"])
            == Some(JArr([RangeClause(q.timeField, from, to), QueryString("*")]))
    ensures Get(Body(q, esVersion, from, to), ["query", "bool", "filter"]).value.items[1]
            != QueryString(q.rawQuery)
  {
    BodyShape(q, esVersion, from, to);
    assert QueryString("*").fields["query_string"].fields["query"] == JStr("*");
    assert QueryString(q.rawQuery).fields["query_string"].fields["query"] == JStr("");
  }

  /** The query_string clause carries the text unchanged, with wildcard analysis on. */
  lemma QueryStringText(text: string)
    ensures QueryString(text).JObj? && QueryString(text).fields.Keys == {"query_string"}
    ensures Get(QueryString(text), ["query_string", "query"]) == Some(JStr(text))
    ensures Get(QueryString(text), ["query_string", "analyze_wildcard"]) == Some(JBool(true))
  {
    var inner := map["analyze_wildcard" := JBool(true), "query" := JStr(text)];
    GetKey(inner, "query", []);
    GetKey(inner, "analyze_wildcard", []);
    GetKey(QueryString(text).fields, "query_string", ["query"]);
    GetKey(QueryString(text).fields, "query_string", ["analyze_wildcard"]);
  }

  /** A date histogram reads the given field, keeps empty buckets, keys
      buckets by epoch milliseconds, and has an interval exactly when one is
      set. */
  lemma HistogramFields(field: string, interval: Option<string>, from: int, to: int)
    ensures HistogramSettings(field, interval, from, to).JObj?
    ensures HistogramSettings(field, interval, from, to).fields.Keys
            == {"field", "min_doc_count", "format", "extended_bounds"} + (if interval.Some? then {"interval"} else {})
    ensures "interval" in HistogramSettings(field, interval, from, to).fields <==> interval.Some?
    ensures interval.Some? ==> Get(HistogramSettings(field, interval, from, to), ["interval"]) == Some(JStr(interval.value))
    ensures Get(HistogramSettings(field, interval, from, to), ["field"]) == Some(JStr(field))
    ensures Get(HistogramSettings(field, interval, from, to), ["min_doc_count"]) == Some(JInt(0))
    ensures Get(HistogramSettings(field, interval, from, to), ["format"]) == Some(JStr(EpochMillis))
  {
    var h := HistogramSettings(field, interval, from, to).fields;
    GetKey(h, "field", []);
    GetKey(h, "min_doc_count", []);
    GetKey(h, "format", []);
    if interval.Some? {
      GetKey(h, "interval", []);
    }
  }

  /** A date histogram's buckets span the whole range: its extended bounds
      parse back to the range's bounds. */
  lemma HistogramBounds(field: string, interval: Option<string>, from: int, to: int)
    ensures BoundAt(HistogramSettings(field, interval, from, to), ["extended_bounds", "min"]) == Some(from)
    ensures BoundAt(HistogramSettings(field, interval, from, to), ["extended_bounds", "max"]) == Some(to)
  {
    var h := HistogramSettings(field, interval, from, to);
    GetPath2(h, "extended_bounds", "min");
    GetPath2(h, "extended_bounds", "max");
    BoundOf(h, ["extended_bounds", "min"], from);
    BoundOf(h, ["extended_bounds", "max"], to);
  }

  /** Terms are ordered by the term under the key the version knows, and
      keep the configured size and field. */
  lemma TermsShape(id: string, field: string, size: int, order: string, esVersion: int, from: int, to: int)
    ensures esVersion < 60 ==>
      Get(BucketSettings(Terms(id, field, size, order), esVersion, from, to), ["order"]) == Some(JObj(map["_term" := JStr(order)]))
    ensures esVersion >= 60 ==>
      Get(BucketSettings(Terms(id, field, size, order), esVersion, from, to), ["order"]) == Some(JObj(map["_key" := JStr(order)]))
    ensures Get(BucketSettings(Terms(id, field, size, order), esVersion, from, to), ["size"]) == Some(JInt(size))
    ensures Get(BucketSettings(Terms(id, field, size, order), esVersion, from, to), ["field"]) == Some(JStr(field))
  {
    var s := BucketSettings(Terms(id, field, size, order), esVersion, from, to).fields;
    GetKey(s, "order", []);
    GetKey(s, "size", []);
    GetKey(s, "field", []);
  }

  /** A filters aggregation has one bucket per label, each a query_string
      clause over that label's query. */
  lemma FiltersShape(id: string, filters: map<string, string>, esVersion: int, from: int, to: int)
    ensures Get(BucketSettings(Filters(id, filters), esVersion, from, to), ["filters"]).Some?
    ensures Get(BucketSettings(Filters(id, filters), esVersion, from, to), ["filters"]).value.JObj?
    ensures Get(BucketSettings(Filters(id, filters), esVersion, from, to), ["filters"]).value.fields.Keys == filters.Keys
    ensures forall name :: name in filters ==>
      Get(BucketSettings(Filters(id, filters), esVersion, from, to), ["filters", name]) == Some(QueryString(filters[name]))
  {
    var s := BucketSettings(Filters(id, filters), esVersion, from, to).fields;
    var buckets := map name | name in filters :: QueryString(filters[name]);
    GetKey(s, "filters", []);
    forall name | name in filters
      ensures Get(BucketSettings(Filters(id, filters), esVersion, from, to), ["filters", name]) == Some(QueryString(filters[name]))
    {
      GetKey(buckets, name, []);
      assert ["filters", name] == ["filters"] + [name];
      GetKey(s, "filters", [name]);
    }
  }

  // ---------------------------------------------------------------------
  // Nesting of bucket aggregations.

  /** The keys leading from the top aggregations past the given buckets:
      each bucket's id, then "aggs". */
  function NestPath(bs: seq<BucketAgg>): (p: seq<string>)
    ensures |p| == 2 * |bs|
  {
    if bs == [] then [] else [bs[0].id, "aggs"] + NestPath(bs[1..])
  }

  /** Below the first i buckets lie the aggregations built from the rest. */
  lemma {:induction false} AggsLevel(bs: seq<BucketAgg>, ms: seq<Metric>, esVersion: int, from: int, to: int, i: nat)
    requires i <= |bs|
    ensures Get(JObj(Aggs(bs, ms, esVersion, from, to)), NestPath(bs[..i])) == Some(JObj(Aggs(bs[i..], ms, esVersion, from, to)))
    decreases i
  {
    if i > 0 {
      var b := bs[0];
      var node := map[
        BucketType(b) := BucketSettings(b, esVersion, from, to),
        "aggs" := JObj(Aggs(bs[1..], ms, esVersion, from, to))];
      var rest := NestPath(bs[1..][..i - 1]);
      assert bs[..i][1..] == bs[1..][..i - 1];
      assert NestPath(bs[..i]) == [b.id] + (["aggs"] + rest);
      GetKey(Aggs(bs, ms, esVersion, from, to), b.id, ["aggs"] + rest);
      GetKey(node, "aggs", rest);
      AggsLevel(bs[1..], ms, esVersion, from, to, i - 1);
      assert bs[1..][i - 1..] == bs[i..];
    }
  }

  /** Each level holds exactly one bucket aggregation, of the i-th bucket's
      type and settings, whose "aggs" hold the next level. */
  lemma BucketNesting(bs: seq<BucketAgg>, ms: seq<Metric>, esVersion: int, from: int, to: int, i: nat)
    requires i < |bs|
    ensures Aggs(bs[i..], ms, esVersion, from, to).Keys == {bs[i].id}
    ensures Get(JObj(Aggs(bs, ms, esVersion, from, to)), NestPath(bs[..i]) + [bs[i].id])
            == Some(JObj(map[
                 BucketType(bs[i]) := BucketSettings(bs[i], esVersion, from, to),
                 "aggs" := JObj(Aggs(bs[i + 1..], ms, esVersion, from, to))]))
  {
    AggsLevel(bs, ms, esVersion, from, to, i);
    GetAppend(JObj(Aggs(bs, ms, esVersion, from, to)), NestPath(bs[..i]), [bs[i].id]);
    assert bs[i..][0] == bs[i] && bs[i..][1..] == bs[i + 1..];
    GetKey(Aggs(bs[i..], ms, esVersion, from, to), bs[i].id, []);
  }

  /** The metrics sit in the innermost bucket, past every bucket aggregation. */
  lemma MetricsInnermost(bs: seq<BucketAgg>, ms: seq<Metric>, esVersion: int, from: int, to: int)
    ensures Get(JObj(Aggs(bs, ms, esVersion, from, to)), NestPath(bs)) == Some(JObj(MetricAggs(ms)))
  {
    AggsLevel(bs, ms, esVersion, from, to, |bs|);
    assert bs[..|bs|] == bs && bs[|bs|..] == [];
  }

  /** Without metrics the innermost bucket still carries an empty "aggs". */
  lemma NoMetricsEmptyAggs(bs: seq<BucketAgg>, esVersion: int, from: int, to: int)
    requires bs != []
    ensures Get(JObj(Aggs(bs, [], esVersion, from, to)), NestPath(bs)) == Some(JObj(map[]))
    ensures NestPath(bs)[|NestPath(bs)| - 1] == "aggs"
  {
    MetricsInnermost(bs, [], esVersion, from, to);
    NestPathLast(bs);
  }

  lemma {:induction false} NestPathLast(bs: seq<BucketAgg>)
    requires bs != []
    ensures NestPath(bs)[|NestPath(bs)| - 1] == "aggs"
  {
    if |bs| > 1 {
      NestPathLast(bs[1..]);
    }
  }

  // ---------------------------------------------------------------------
  // Metrics.

  predicate DistinctIds(ms: seq<Metric>) {
    forall i, j :: 0 <= i < j < |ms| ==> ms[i].id != ms[j].id
  }

  /** The metrics are keyed by exactly their ids. */
  lemma {:induction false} MetricAggsKeys(ms: seq<Metric>)
    ensures MetricAggs(ms).Keys == set i | 0 <= i < |ms| :: ms[i].id
  {
    if ms != [] {
      var init := ms[..|ms| - 1];
      MetricAggsKeys(init);
      assert (set i | 0 <= i < |ms| :: ms[i].id) == (set i | 0 <= i < |init| :: init[i].id) + {ms[|ms| - 1].id};
    }
  }

  /** With distinct ids, each metric is found under its own id. */
  lemma {:induction false} MetricAggsAt(ms: seq<Metric>, i: nat)
    requires DistinctIds(ms) && i < |ms|
    ensures ms[i].id in MetricAggs(ms) && MetricAggs(ms)[ms[i].id] == MetricLeaf(ms[i])
  {
    if i < |ms| - 1 {
      MetricAggsAt(ms[..|ms| - 1], i);
    }
  }

  /** A metric is keyed by its type; a field metric reads its field, a
      pipeline metric the path it names, and every other setting is passed on. */
  lemma MetricLeafShape(m: Metric)
    ensures MetricLeaf(m).JObj? && MetricLeaf(m).fields.Keys == {m.kind}
    ensures m.FieldMetric? ==> Get(MetricLeaf(m), [m.kind, "field"]) == Some(JStr(m.field))
    ensures m.PipelineMetric? ==> Get(MetricLeaf(m), [m.kind, "buckets_path"]) == Some(JStr(m.pipelineAgg))
    ensures forall k :: k in m.settings && k != "field" && k != "buckets_path" ==>
      Get(MetricLeaf(m), [m.kind, k]) == Some(m.settings[k])
  {
    var own := if m.FieldMetric? then m.settings["field" := JStr(m.field)] else m.settings["buckets_path" := JStr(m.pipelineAgg)];
    assert MetricLeaf(m) == JObj(map[m.kind := JObj(own)]);
    forall k | k in own
      ensures Get(MetricLeaf(m), [m.kind, k]) == Some(own[k])
    {
      GetKey(own, k, []);
      assert [m.kind, k] == [m.kind] + [k];
      GetKey(map[m.kind := JObj(own)], m.kind, [k]);
    }
  }

  /** A pipeline metric's buckets_path names a sibling in the same
      aggregations: the metric it reads sits next to it under that id. */
  lemma PipelineSibling(ms: seq<Metric>, i: nat, j: nat)
    requires DistinctIds(ms) && i < |ms| && j < |ms|
    requires ms[i].PipelineMetric? && ms[j].id == ms[i].pipelineAgg
    ensures Get(JObj(MetricAggs(ms)), [ms[i].id, ms[i].kind, "buckets_path"]) == Some(JStr(ms[j].id))
    ensures Get(JObj(MetricAggs(ms)), [ms[j].id]) == Some(MetricLeaf(ms[j]))
  {
    PipelinePathAt(ms, i);
    MetricAt(ms, j);
  }

  lemma PipelinePathAt(ms: seq<Metric>, i: nat)
    requires DistinctIds(ms) && i < |ms| && ms[i].PipelineMetric?
    ensures Get(JObj(MetricAggs(ms)), [ms[i].id, ms[i].kind, "buckets_path"]) == Some(JStr(ms[i].pipelineAgg))
  {
    var m := ms[i];
    MetricAggsAt(ms, i);
    assert MetricAggs(ms)[m.id] == JObj(map[m.kind := JObj(m.settings["buckets_path" := JStr(m.pipelineAgg)])]);
    GetPath3(JObj(MetricAggs(ms)), m.id, m.kind, "buckets_path");
  }

  lemma MetricAt(ms: seq<Metric>, j: nat)
    requires DistinctIds(ms) && j < |ms|
    ensures Get(JObj(MetricAggs(ms)), [ms[j].id]) == Some(MetricLeaf(ms[j]))
  {
    MetricAggsAt(ms, j);
    GetKey(MetricAggs(ms), ms[j].id, []);
  }
}
