# Elasticsearch datasource: index lists and search requests

A model of the two behaviours that Grafana's Elasticsearch backend tests pin
down in `pkg/tsdb/elasticsearch/query_test.go`:

- **Index-list resolution** (`getIndexList`). An index pattern `[literal]FORMAT`, a rotation
  interval (`Hourly`, `Daily`, `Weekly`, `Monthly`, `Yearly` or none) and a
  time range give the comma-joined names of the indices to search.
  - The walk rule: the name of the start instant; then, while the current
    instant is before the end of the range, the current instant advanced by
    one interval, and its name.
  - Months and years are added the way Go's `time.AddDate` adds them:
    January 31 plus one month is March 3.
  - FORMAT understands `YYYY`, `MM`, `DD`, `HH` and `W` (the ISO 8601 week
    number), all in UTC.
  - With no interval, the pattern itself is the answer.
- **Request building** (`Query.Build`). A query model yields two lines: a header naming the
  indices, and a search body. The body asks for no hits (`size: 0`) and
  filters by the time range and then the query text. Its bucket aggregations
  are nested outermost first, and the metrics sit in the innermost bucket.
  JSON is modelled as a tree whose objects are maps, so key order does not
  matter, just as the tests compare parsed JSON structurally.

Modules, in dependency order:

| file | module | contents |
|---|---|---|
| wrappers.dfy | Wrappers | `Option` |
| text.dfy | Text | `strconv.Itoa` and its inverse parse, zero padding, `strings.Join`/`Split` |
| calendar.dfy | Calendar | proleptic Gregorian calendar on epoch milliseconds, `AddDate`, ISO weeks |
| index_pattern.dfy | IndexPattern | intervals, the walk, date formats, patterns, the resolver method |
| index_properties.dfy | IndexProperties | what every resolution promises |
| index_list_cases.dfy | IndexListCases | `makeTime`, `getIndexListByTime` and the six asserted resolutions |
| json.dfy | Json | JSON trees and navigation by key path |
| query.dfy | QueryBuilder | query, metric and bucket models: the builder |
| query_properties.dfy | QueryProperties | what every request body promises |
| query_cases.dfy | QueryCases | the four asserted request bodies |

`IndexPattern.ResolveIndexList` is the resolver's step-and-append loop. It is
a method with a `while` loop that grows a list of names. It is proved equal
to `IndexList`, the specification function that the lemmas are about. The
request builder is pure functions over the query model.

## Model

| member | source | states |
|---|---|---|
| IndexPattern.Advance | pkg/tsdb/elasticsearch/query_test.go:276-289 | one interval after an instant is a strictly later instant |
| IndexPattern.Walk | pkg/tsdb/elasticsearch/query_test.go:276-289 | the walked instants start at the range start and, unless that is the only one, end at or past the end of the range |
| IndexPattern.IndexList | pkg/tsdb/elasticsearch/query_test.go:276-294 | with no interval, or a pattern with no `]` to split at, the list is the pattern itself |
| IndexPattern.GetIndexList | pkg/tsdb/elasticsearch/query_test.go:264-270 | the list for a range given as epoch-millisecond strings; the empty interval setting gives the pattern back |
| IndexPattern.ResolveIndexList | pkg/tsdb/elasticsearch/query_test.go:264-297 | the loop emits the start's name, then one name per interval step while the current instant is before the end. The result is `IndexList` of the parsed interval, and the pattern itself when the interval is empty |
| IndexPattern.ParseIntervalName | pkg/tsdb/elasticsearch/query_test.go:276-294 | each interval setting ("Daily", "Hourly", "Weekly", "Monthly", "Yearly", "") is read back as its interval |
| IndexPattern.RenderParseFormat | pkg/tsdb/elasticsearch/query_test.go:276-289 | reading a date format into tokens loses nothing: rendering the tokens gives the format back |
| IndexPattern.ParseRenderFormat | pkg/tsdb/elasticsearch/query_test.go:276-289 | a token list whose literals are not token letters is read back from its rendering |
| IndexPattern.SplitMakePattern | pkg/tsdb/elasticsearch/query_test.go:276 | a pattern `[lit]fmt` splits into its bracketed literal and its format |
| IndexProperties.WalkIsWalk | pkg/tsdb/elasticsearch/query_test.go:276-289 | the walk starts at the range start; each instant before the end is followed by its advance; only the last instant is at or past the end |
| IndexProperties.IsWalkUnique | pkg/tsdb/elasticsearch/query_test.go:276-289 | any sequence obeying the walk rule is the walk |
| IndexProperties.WalkIncreasing | pkg/tsdb/elasticsearch/query_test.go:276-289 | the instants named strictly increase |
| IndexProperties.WalkFixed | pkg/tsdb/elasticsearch/query_test.go:279-280 | for hourly, daily and weekly steps, the i-th instant is start + i·step, and the count is one more than the number of steps that fit before the end |
| IndexProperties.WalkCoversPartitions | pkg/tsdb/elasticsearch/query_test.go:276-289 | every partition (hour, day, week, month, year) that meets the range is the partition of some walked instant |
| IndexProperties.WalkPartitionsDistinct | pkg/tsdb/elasticsearch/query_test.go:276-289 | from any start, a monthly walk from the 29th to the 31st included, the partitions of the walked instants strictly increase, so no two instants share a partition. Names can still repeat when the format is coarser than the interval (`DailyWalkMonthNamesRepeat`) |
| IndexProperties.PartitionAdvances | pkg/tsdb/elasticsearch/query_test.go:276-289 | every step of the walk moves to a later partition |
| Calendar.AddMonthLater | pkg/tsdb/elasticsearch/query_test.go:285-286 | one month on from any day, the 29th to the 31st included, is in a later month |
| IndexProperties.WalkOvershoot | pkg/tsdb/elasticsearch/query_test.go:288-289 | for a non-empty range, and for monthly steps a start day of at most 28, the last instant lies in the end's partition or the one after it; the yearly case's 2019 is such an overshoot |
| IndexProperties.MonthlySkipsFebruary | pkg/tsdb/elasticsearch/query_test.go:285-286 | a monthly step from January 31 lands on March 3, so February 28 is not named |
| IndexProperties.SamePartitionSameFormat | pkg/tsdb/elasticsearch/query_test.go:276-289 | a format whose tokens the interval resolves renders the same text at any two instants of one partition |
| IndexProperties.IndexListCovers | pkg/tsdb/elasticsearch/query_test.go:276-289 | when every token of the format is constant within a partition of the interval, and a monthly walk starts on a day up to the 28th, the name of every instant in the range is among the names listed. The weekly case's own format `YYYY.W` is excluded, rightly: its year changes within the week of December 31, 2018, so a weekly walk from Thursday 2018-12-27 lists `2018.52` and `2019.1` while Monday 2018-12-31 is named `2018.1` |
| IndexProperties.IndexListParts | pkg/tsdb/elasticsearch/query_test.go:279-280 | when neither the literal nor the format contains ',', splitting the list on ',' gives back exactly the walked names, one per instant |
| Calendar.CivilFromDaysOfCivil | pkg/tsdb/elasticsearch/query_test.go:260 | converting a valid date to its day number and back gives the date |
| Calendar.DaysFromCivilFromDays | pkg/tsdb/elasticsearch/query_test.go:260 | converting a day number to its date and back gives the day number |
| Calendar.AddMonthDate | pkg/tsdb/elasticsearch/query_test.go:285-286 | adding a month to a day of the month up to 28 keeps the day and moves to the next month |
| Calendar.AddYearDate | pkg/tsdb/elasticsearch/query_test.go:288-289 | adding a year keeps month and day; February 29 becomes March 1 in a common year |
| Calendar.IsoWeekOfWeek | pkg/tsdb/elasticsearch/query_test.go:282-283 | two days of one Monday-to-Sunday week have the same ISO week number |
| Text.ParseIntOfIntToString | pkg/tsdb/elasticsearch/query_test.go:261 | an integer written in decimal is parsed back as itself |
| Text.SplitJoin | pkg/tsdb/elasticsearch/query_test.go:279 | splitting a join on a separator that no piece contains gives the pieces back |
| IndexListCases.MakeTime | pkg/tsdb/elasticsearch/query_test.go:259-262 | `makeTime(h)` is the decimal text of (1500000000 + 3600h)·1000: it reads back as that instant |
| IndexListCases.MakeTimeIncreasing | pkg/tsdb/elasticsearch/query_test.go:259-262 | later hours give later instants |
| IndexListCases.MakeTimeEpoch | pkg/tsdb/elasticsearch/query_test.go:260 | hour 0 is 2017-07-14T02:40Z |
| IndexListCases.GetIndexListByTime | pkg/tsdb/elasticsearch/query_test.go:264-270 | the list for the range from `makeTime(0)` to `makeTime(hour)`; with the empty interval setting, the pattern itself |
| IndexListCases.ByTimeIsIndexList | pkg/tsdb/elasticsearch/query_test.go:264-270 | `getIndexListByTime` resolves the range from `makeTime(0)` to `makeTime(hour)` |
| IndexListCases.DailyIndexList | pkg/tsdb/elasticsearch/query_test.go:276-277 | daily over 48 h gives `logstash-2017.07.14,logstash-2017.07.15,logstash-2017.07.16` |
| IndexListCases.HourlyIndexList | pkg/tsdb/elasticsearch/query_test.go:279-280 | hourly over 3 h gives four names |
| IndexListCases.WeeklyIndexList | pkg/tsdb/elasticsearch/query_test.go:282-283 | weekly over 100 h gives `logstash-2017.28,logstash-2017.29` |
| IndexListCases.MonthlyIndexList | pkg/tsdb/elasticsearch/query_test.go:285-286 | monthly over 700 h gives `logstash-2017.07,logstash-2017.08` |
| IndexListCases.YearlyIndexList | pkg/tsdb/elasticsearch/query_test.go:288-289 | yearly over 10000 h gives `logstash-2017,logstash-2018,logstash-2019` |
| IndexListCases.DailyWalkMonthNamesRepeat | pkg/tsdb/elasticsearch/query_test.go:276-277 | names are not deduplicated: the daily walk of the daily case, named by `YYYY.MM`, gives `logstash-2017.07` three times |
| IndexListCases.NoIntervalIndexList | pkg/tsdb/elasticsearch/query_test.go:292-294 | with no interval the pattern `logstash-test` is returned as it is |
| QueryBuilder.Build | pkg/tsdb/elasticsearch/query_test.go:26-29 | the request has exactly two lines |
| QueryProperties.BuildLines | pkg/tsdb/elasticsearch/query_test.go:26-29 | line 1 is the body; the header names the resolved index list, which is the pattern itself when no interval is set |
| QueryBuilder.Body | pkg/tsdb/elasticsearch/query_test.go:59-251 | every body is an object with exactly the keys size, query and aggs, and asks for no hits |
| QueryBuilder.Aggs | pkg/tsdb/elasticsearch/query_test.go:84-113 | a level with a bucket aggregation holds only that aggregation, under its id; the innermost level holds every metric's id |
| QueryBuilder.MetricAggs | pkg/tsdb/elasticsearch/query_test.go:95-112 | every metric's id is a key, and the final metric of the list is the one found under its id |
| QueryBuilder.QueryText | pkg/tsdb/elasticsearch/query_test.go:216 | the text searched for is never empty, and is the raw text whenever that is not empty |
| QueryProperties.EmptyQueryMatchesAll | pkg/tsdb/elasticsearch/query_test.go:216 | for any query whose text is empty, the body's filter is the range clause followed by a query_string clause asking for `*`, not for the empty text |
| QueryProperties.BodyShape | pkg/tsdb/elasticsearch/query_test.go:59-83 | the body has exactly the keys size, query and aggs. `size` is 0, and `query.bool.filter` is exactly the range clause followed by the query_string clause of the query text, `*` when the text is empty |
| QueryProperties.RangeBounds | pkg/tsdb/elasticsearch/query_test.go:33-45 | the range clause holds only the time field; its `gte` and `lte` strings parse back to the range's bounds; `format` is `epoch_millis` |
| QueryProperties.QueryStringText | pkg/tsdb/elasticsearch/query_test.go:135-139 | the query_string clause carries the query text unchanged, escaped quotes included, with `analyze_wildcard: true` |
| QueryProperties.HistogramFields | pkg/tsdb/elasticsearch/query_test.go:85-94 | a date_histogram has exactly field, min_doc_count 0, format `epoch_millis` and extended_bounds. It also has `interval` if and only if one is set, as at lines 153-161 |
| QueryProperties.HistogramBounds | pkg/tsdb/elasticsearch/query_test.go:89-92 | extended_bounds min and max parse back to the range's bounds |
| QueryProperties.TermsShape | pkg/tsdb/elasticsearch/query_test.go:193 | terms keep their field and size and are ordered on `_term` before version 60 (the tests run version 2) and on `_key` from then on |
| QueryProperties.FiltersShape | pkg/tsdb/elasticsearch/query_test.go:224-233 | a filters aggregation has one bucket per label, each a query_string clause over that label's query |
| QueryProperties.AggsLevel | pkg/tsdb/elasticsearch/query_test.go:193 | past the first i buckets (id, then "aggs", for each) lie the aggregations of the remaining buckets |
| QueryProperties.BucketNesting | pkg/tsdb/elasticsearch/query_test.go:222-248 | every level holds exactly one bucket aggregation. Its keys are the i-th bucket's type, with that bucket's settings, and "aggs" holding the next level |
| QueryProperties.MetricsInnermost | pkg/tsdb/elasticsearch/query_test.go:95-112 | the metrics are found past every bucket aggregation |
| QueryProperties.NoMetricsEmptyAggs | pkg/tsdb/elasticsearch/query_test.go:246 | without metrics the innermost bucket carries `aggs: {}` |
| QueryProperties.MetricAggsKeys | pkg/tsdb/elasticsearch/query_test.go:95-112 | the metrics are keyed by exactly their ids |
| QueryProperties.MetricAggsAt | pkg/tsdb/elasticsearch/query_test.go:96-111 | with distinct ids, each metric is found under its own id |
| QueryProperties.MetricLeafShape | pkg/tsdb/elasticsearch/query_test.go:97-110 | a metric is keyed by its type. A field metric names its field, and a pipeline metric its `buckets_path`. Every other setting is passed on |
| QueryProperties.PipelineSibling | pkg/tsdb/elasticsearch/query_test.go:104-106 | a moving_avg's `buckets_path` is the id of the metric it reads, and that metric sits beside it in the same aggregations |
| QueryCases.AvgWithMovingAvgBody | pkg/tsdb/elasticsearch/query_test.go:59-117 | a histogram with a scripted average and a moving average of it builds the expected body for any range |
| QueryCases.WildcardsAndQuotesBody | pkg/tsdb/elasticsearch/query_test.go:120-166 | a sum in a histogram with no interval, with a query text of wildcards and escaped quotes, builds the expected body |
| QueryCases.TermAggsBody | pkg/tsdb/elasticsearch/query_test.go:169-196 | under version 2, terms wrapping a histogram wrapping a sum build the expected body |
| QueryCases.FiltersAggsBody | pkg/tsdb/elasticsearch/query_test.go:199-254 | a named filter wrapping a histogram without metrics, with an empty query text, builds the expected body, `"query": "*"` included |

## Left out

- Relative time ranges such as "5m" to "now" are left out: they read the wall clock. The builder takes the range as two epoch-millisecond integers, and the body lemmas hold for every such pair.
- Local time zones are left out; every date is formatted in UTC.
- JSON text is left out: serialisation, parsing, the newline-separated request string and the placeholder substitution. Bodies are compared as trees, the way the tests compare them after parsing.
- The Go test scaffolding (goconvey, failure printing) is left out. The datasource object is reduced to its index pattern, interval setting and version.
- The input queries of the four body tests (`avgWithMovingAvg`, `wildcardsAndQuotes`, `termAggs`, `filtersAggs`) are not part of this model. `QueryCases` uses queries chosen to produce the expected bodies, not the original fixtures.
- QueryBuilder.Header: names only the index list. Any other search options of the header line are not modelled, since no test shows them.
- QueryBuilder.Build: requires an interval setting the resolver knows. What the datasource does with an unknown setting is not shown and not modelled.
- IndexPattern.GetIndexList, IndexPattern.ResolveIndexList and IndexListCases.GetIndexListByTime: require an interval setting the resolver knows (none, "Hourly", "Daily", "Weekly", "Monthly" or "Yearly"), for the same reason. GetIndexList also requires both bounds to be epoch-millisecond strings; relative bounds are left out above.
- QueryBuilder.TermsOrderKey: the tests show only version 2 and `_term`. The switch to `_key` at version 60 follows later Elasticsearch behaviour and is not pinned by any assertion.
- QueryBuilder.MetricAggs: a pipeline metric that names a missing metric is built as given, and no error is raised. `PipelineSibling` speaks only of pipeline metrics whose reference exists.
- Metric and bucket kinds beyond those the tests show (percentiles, extended stats, geohash grids, count metrics, ...) are not modelled. A field metric is any kind name with a field and settings.
- Patterns are split, not validated: leading `[` characters are dropped, the rest is split at every `]`, and the first two pieces are the literal and the format. So `abc]YYYY` is read as literal `abc` and format `YYYY`, and in `[a]b]c` the piece `c` after the second `]` is ignored. Only a pattern with no `]` after its leading brackets is returned as it is. No error is modelled for malformed patterns.
- Moment-style format tokens other than `YYYY`, `MM`, `DD`, `HH` and `W` are not modelled; any other character is copied literally.
- Duplicate index names are not dropped: one name is emitted per walked instant. The walked instants lie in distinct partitions (`WalkPartitionsDistinct`), but a format coarser than the interval repeats names (`DailyWalkMonthNamesRepeat`).
- IndexProperties.WalkOvershoot: holds only for a non-empty range and, for monthly steps, a start day of at most 28. A monthly walk from January 31 can end two partitions past the end's: from 2017-01-31 to one millisecond later it ends on March 3.
- IndexProperties.WalkCoversPartitions: for monthly steps it covers only walks whose start day is at most 28. From a later day, `AddDate` overflow can skip a month (`MonthlySkipsFebruary`).
- Integers are unbounded. The 64-bit range of Go's `int64` milliseconds is not modelled; the instants of the six asserted resolutions are far inside it.
- Years below 0 are written as a minus sign and four digits. The date library's treatment of such years is not modelled; the tests only use years 2017 to 2019.
