/**
 * The timeseries handler (`GET /api/timeseries`): the gate, the bucket
 * parameter, the shared range block, the total series, the top-five names
 * and the by-name series.
 */
module Timeseries {
  import opened Wrappers
  import opened Text
  import opened Sorting
  import opened Grouping
  import opened RangeResolver
  import opened Events
  import opened Http
  import opened Stats

  datatype Bucket = Hour | Day

  /** `(bucket || "hour").toLowerCase()`, then the hour/day check; `None` is
      the 400 "bucket must be hour or day". */
  function ParseBucket(p: Option<string>): (b: Option<Bucket>)
    ensures !Present(p) ==> b == Some(Hour)
    ensures Present(p) ==> (b == Some(Hour) <==> ToLowerAscii(p.value) == "hour")
    ensures Present(p) ==> (b == Some(Day) <==> ToLowerAscii(p.value) == "day")
  {
    var s := if Present(p) then p.value else "hour";
    var lowered := ToLowerAscii(s);
    if lowered == "hour" then Some(Hour)
    else if lowered == "day" then Some(Day)
    else None
  }

  lemma BucketExamples()
    ensures ParseBucket(None) == Some(Hour)
    ensures ParseBucket(Some("")) == Some(Hour)
    ensures ParseBucket(Some("DAY")) == Some(Day)
    ensures ParseBucket(Some("Hour")) == Some(Hour)
    ensures ParseBucket(Some("week")) == None
  {
    assert ToLowerAscii("DAY") == "day";
    assert ToLowerAscii("Hour") == "hour";
    assert ToLowerAscii("week")[0] == 'w';
  }

  function Width(b: Bucket): (w: nat)
    ensures w > 0
  {
    match b
    case Hour => HourMs
    case Day => DayMs
  }

  /** `strftime('%Y-%m-%dT%H:00:00Z')` / `strftime('%Y-%m-%dT00:00:00Z')` on
      the row's timestamp: the UTC hour or day that holds `t`, as its first instant. */
  function BucketKey(t: int, b: Bucket): (k: int)
    ensures k <= t < k + Width(b)
    ensures k % Width(b) == 0
  {
    t - t % Width(b)
  }

  /** The key is the start of the one aligned interval that holds `t`, so two
      instants in the same UTC hour (day) share a key. */
  lemma BucketKeyUnique(t: int, b: Bucket, k: int)
    requires k % Width(b) == 0 && k <= t < k + Width(b)
    ensures BucketKey(t, b) == k
  {
    var w := Width(b);
    var k' := BucketKey(t, b);
    assert (k' - k) % w == 0;
    assert -w < k' - k < w;
  }

  /** 2024-01-15T14:37:22Z falls in the bucket 2024-01-15T14:00:00Z by hour
      and 2024-01-15T00:00:00Z by day. */
  lemma BucketKeyExample()
    ensures BucketKey(1705329442000, Hour) == 1705327200000
    ensures BucketKey(1705329442000, Day) == 1705276800000
  {
    BucketKeyUnique(1705329442000, Hour, 1705327200000);
    BucketKeyUnique(1705329442000, Day, 1705276800000);
  }

  /** The bucket keys of the rows, in order. */
  function BucketKeys(es: seq<Event>, b: Bucket): (ks: seq<int>)
    ensures |ks| == |es|
    ensures forall i :: 0 <= i < |es| ==> ks[i] == BucketKey(es[i].t, b)
  {
    seq(|es|, i requires 0 <= i < |es| => BucketKey(es[i].t, b))
  }

  predicate KeyAsc(x: Bin<int>, y: Bin<int>) {
    x.key <= y.key
  }

  /** `SELECT bucket, COUNT(*) ... WHERE in range GROUP BY bucket_utc ORDER BY bucket_utc ASC`. */
  function TotalQuery(es: seq<Event>, r: TimeRange, b: Bucket): (rows: seq<Bin<int>>)
    ensures GroupOf(rows, BucketKeys(InRangeEvents(es, r), b))
    ensures forall i, j :: 0 <= i < j < |rows| ==> rows[i].key < rows[j].key
  {
    var keys := BucketKeys(InRangeEvents(es, r), b);
    var g := Group(keys);
    assert TotalPreorder(KeyAsc);
    var rows := SortBy(g, KeyAsc);
    GroupOfPermutation(g, rows, keys);
    assert DistinctKeys(rows);
    assert forall i, j :: 0 <= i < j < |rows| ==> KeyAsc(rows[i], rows[j]);
    rows
  }

  /** A result row as the store hands it back: the bucket text (`None` where
      strftime gave NULL) and the count. */
  datatype BucketRow = BucketRow(bucket: Option<int>, count: Option<nat>)

  /** An entry of the `total` series. */
  datatype TotalPoint = TotalPoint(bucket: int, count: nat)

  /** `.filter(r => r.bucket_utc).map(r => ({..., count: Number(r.count || 0)}))`:
      every entry comes from a row with a bucket, its count defaulted to 0. */
  function FinishTotal(rows: seq<BucketRow>): (pts: seq<TotalPoint>)
    ensures |pts| <= |rows|
    ensures pts == [] <==> forall i :: 0 <= i < |rows| ==> rows[i].bucket.None?
    ensures forall p :: p in pts ==>
      exists row :: row in rows && row.bucket == Some(p.bucket) && p.count == row.count.GetOr(0)
    decreases |rows|
  {
    if rows == [] then []
    else
      var rest := FinishTotal(rows[1..]);
      assert forall row :: row in rows[1..] ==> row in rows;
      assert forall i :: 0 < i < |rows| ==> rows[i] == rows[1..][i - 1];
      if rows[0].bucket.Some? then [TotalPoint(rows[0].bucket.value, rows[0].count.GetOr(0))] + rest
      else rest
  }

  /** Where every row has a bucket, nothing is dropped and the order is kept. */
  lemma {:induction false} FinishTotalKeepsKeyed(rows: seq<BucketRow>)
    requires forall i :: 0 <= i < |rows| ==> rows[i].bucket.Some?
    ensures var pts := FinishTotal(rows);
      |pts| == |rows| && forall i :: 0 <= i < |rows| ==> pts[i] == TotalPoint(rows[i].bucket.value, rows[i].count.GetOr(0))
    decreases |rows|
  {
    if rows != [] {
      FinishTotalKeepsKeyed(rows[1..]);
    }
  }

  /** One row: kept with its count defaulted to 0 when it has a bucket, dropped otherwise. */
  lemma FinishTotalSingle(row: BucketRow)
    ensures row.bucket.Some? ==> FinishTotal([row]) == [TotalPoint(row.bucket.value, row.count.GetOr(0))]
    ensures row.bucket.None? ==> FinishTotal([row]) == []
  {
    assert [row][1..] == [];
  }

  /** The filter-and-map treats each row on its own: the result for a
      concatenation is the concatenation of the results, so keyed rows keep
      their order wherever the null rows sit. */
  lemma {:induction false} FinishTotalAppend(a: seq<BucketRow>, b: seq<BucketRow>)
    ensures FinishTotal(a + b) == FinishTotal(a) + FinishTotal(b)
    decreases |a|
  {
    if a == [] {
      assert a + b == b;
    } else {
      assert (a + b)[0] == a[0];
      assert (a + b)[1..] == a[1..] + b;
      FinishTotalAppend(a[1..], b);
    }
  }

  /** A row whose bucket is null is dropped, wherever it sits. */
  lemma FinishTotalDropsNull(a: seq<BucketRow>, row: BucketRow, b: seq<BucketRow>)
    requires row.bucket.None?
    ensures FinishTotal(a + [row] + b) == FinishTotal(a + b)
  {
    FinishTotalAppend(a + [row], b);
    FinishTotalAppend(a, [row]);
    FinishTotalSingle(row);
    FinishTotalAppend(a, b);
    assert FinishTotal(a) + [] == FinishTotal(a);
  }

  lemma FinishTotalExample(k: int)
    ensures FinishTotal([BucketRow(None, Some(3)), BucketRow(Some(k), None)]) == [TotalPoint(k, 0)]
  {
    var rows := [BucketRow(None, Some(3)), BucketRow(Some(k), None)];
    assert rows[1..] == [BucketRow(Some(k), None)];
    assert rows[1..][1..] == [];
  }

  /** The grouped rows as the store returns them. */
  function AsStoreRows(bins: seq<Bin<int>>): (rows: seq<BucketRow>)
    ensures |rows| == |bins|
    ensures forall i :: 0 <= i < |bins| ==> rows[i] == BucketRow(Some(bins[i].key), Some(bins[i].count))
  {
    seq(|bins|, i requires 0 <= i < |bins| => BucketRow(Some(bins[i].key), Some(bins[i].count)))
  }

  /** The `total` series: the post-processed rows of the total query, in
      strictly ascending bucket order. */
  function TotalSeries(es: seq<Event>, r: TimeRange, b: Bucket): (s: seq<TotalPoint>)
    ensures var bins := TotalQuery(es, r, b);
      |s| == |bins| && forall i :: 0 <= i < |s| ==> s[i] == TotalPoint(bins[i].key, bins[i].count)
    ensures forall i, j :: 0 <= i < j < |s| ==> s[i].bucket < s[j].bucket
  {
    var bins := TotalQuery(es, r, b);
    FinishTotalKeepsKeyed(AsStoreRows(bins));
    FinishTotal(AsStoreRows(bins))
  }

  /** Each entry of the `total` series is a UTC hour (day) start that holds
      in-range rows, and its count is the number of in-range rows in it. */
  lemma TotalSeriesCounts(es: seq<Event>, r: TimeRange, b: Bucket)
    ensures var s, keys := TotalSeries(es, r, b), BucketKeys(InRangeEvents(es, r), b);
      forall i :: 0 <= i < |s| ==>
        && s[i].bucket % Width(b) == 0
        && s[i].count == Occurrences(keys, s[i].bucket)
        && s[i].count > 0
  {
    var s, keys, bins := TotalSeries(es, r, b), BucketKeys(InRangeEvents(es, r), b), TotalQuery(es, r, b);
    forall i | 0 <= i < |s|
      ensures s[i].bucket % Width(b) == 0 && s[i].count == Occurrences(keys, s[i].bucket) && s[i].count > 0
    {
      assert bins[i] in bins;
      var p :| 0 <= p < |keys| && keys[p] == bins[i].key;
      OccurrencesPresent(keys, p);
    }
  }

  /** Every in-range row's bucket is listed in the `total` series, so the
      series has exactly one entry per non-empty bucket, and its counts add up
      to the number of in-range rows. */
  lemma TotalSeriesCovers(es: seq<Event>, r: TimeRange, b: Bucket)
    ensures var s := TotalSeries(es, r, b);
      forall e :: e in es && InRange(e, r) ==> exists i :: 0 <= i < |s| && s[i].bucket == BucketKey(e.t, b)
    ensures |TotalSeries(es, r, b)| == |KeySet(BucketKeys(InRangeEvents(es, r), b))|
    ensures Total(TotalQuery(es, r, b)) == |InRangeEvents(es, r)|
  {
    var f := InRangeEvents(es, r);
    var s, keys, bins := TotalSeries(es, r, b), BucketKeys(f, b), TotalQuery(es, r, b);
    forall e | e in es && InRange(e, r) ensures exists i :: 0 <= i < |s| && s[i].bucket == BucketKey(e.t, b) {
      var p :| 0 <= p < |f| && f[p] == e;
      assert keys[p] in keys;
      var bin :| bin in bins && bin.key == keys[p];
      var i :| 0 <= i < |bins| && bins[i] == bin;
      assert s[i].bucket == BucketKey(e.t, b);
    }
    GroupSums(bins, keys);
  }

  lemma {:induction false} OccurrencesPresent<K>(ks: seq<K>, p: nat)
    requires p < |ks|
    ensures Occurrences(ks, ks[p]) > 0
    decreases |ks|
  {
    if p < |ks| - 1 {
      OccurrencesPresent(ks[..|ks| - 1], p);
    }
  }

  /** `SELECT name, COUNT(*) ... GROUP BY name ORDER BY count DESC LIMIT 5`,
      each row as its count and name. */
  function TopRows(es: seq<Event>, r: TimeRange): (top: seq<NamedCount>)
    ensures var ranked := PerName(InRangeEvents(es, r));
      |top| == (if |ranked| < 5 then |ranked| else 5) && top == ranked[..|top|]
  {
    var ranked := PerName(InRangeEvents(es, r));
    ranked[..if |ranked| < 5 then |ranked| else 5]
  }

  /** `topList`: the names of the top rows. */
  function TopNames(es: seq<Event>, r: TimeRange): (names: seq<string>)
    ensures |names| == |TopRows(es, r)|
    ensures forall i :: 0 <= i < |names| ==> names[i] == TopRows(es, r)[i].key
  {
    var top := TopRows(es, r);
    seq(|top|, i requires 0 <= i < |top| => top[i].key)
  }

  /** There are as many top names as distinct in-range names, up to five. */
  lemma TopNamesLength(es: seq<Event>, r: TimeRange)
    ensures var ks := KeySet(Names(InRangeEvents(es, r)));
      |TopNames(es, r)| == if |ks| < 5 then |ks| else 5
  {
    GroupSums(PerName(InRangeEvents(es, r)), Names(InRangeEvents(es, r)));
  }

  /** A prefix of a ranked grouping of `ns` lists distinct names of `ns` with
      their counts, counts not increasing. */
  lemma RankedPrefix(ranked: seq<NamedCount>, ns: seq<string>, n: nat)
    requires GroupOf(ranked, ns) && Ranked(ranked) && n <= |ranked|
    ensures var top := ranked[..n];
      && (forall i, j :: 0 <= i < j < |top| ==> top[i].key != top[j].key)
      && (forall i :: 0 <= i < |top| ==> top[i].key in ns && top[i].count == Occurrences(ns, top[i].key))
      && (forall i, j :: 0 <= i < j < |top| ==> top[i].count >= top[j].count)
  {
    var top := ranked[..n];
    assert forall i :: 0 <= i < |top| ==> top[i] == ranked[i] && ranked[i] in ranked;
  }

  /** A prefix of a ranked grouping of `ns` leaves out no name with a higher
      count than a listed one. */
  lemma RankedPrefixMaximal(ranked: seq<NamedCount>, ns: seq<string>, n: nat)
    requires GroupOf(ranked, ns) && Ranked(ranked) && n <= |ranked|
    ensures var top := ranked[..n];
      forall m, i :: m in ns && (forall j :: 0 <= j < |top| ==> top[j].key != m) && 0 <= i < |top| ==>
        Occurrences(ns, m) <= top[i].count
  {
    var top := ranked[..n];
    forall m, i | m in ns && (forall j :: 0 <= j < |top| ==> top[j].key != m) && 0 <= i < |top|
      ensures Occurrences(ns, m) <= top[i].count
    {
      var c :| c in ranked && c.key == m;
      var j :| 0 <= j < |ranked| && ranked[j] == c;
      assert forall q :: 0 <= q < n ==> top[q] == ranked[q];
      assert j >= n;
      assert top[i] == ranked[i];
    }
  }

  /** The top names are distinct names of in-range rows, each row carrying
      that name's in-range count, with counts not increasing. */
  lemma TopNamesDistinctAndCounted(es: seq<Event>, r: TimeRange)
    ensures var names, top, ns := TopNames(es, r), TopRows(es, r), Names(InRangeEvents(es, r));
      && (forall i, j :: 0 <= i < j < |names| ==> names[i] != names[j])
      && (forall i :: 0 <= i < |names| ==> names[i] in ns && top[i].count == Occurrences(ns, names[i]))
      && (forall i, j :: 0 <= i < j < |top| ==> top[i].count >= top[j].count)
  {
    var ranked, ns := PerName(InRangeEvents(es, r)), Names(InRangeEvents(es, r));
    var top := TopRows(es, r);
    RankedPrefix(ranked, ns, |top|);
  }

  /** No in-range name left out of the top names has a higher count than one listed. */
  lemma TopNamesAreMostFrequent(es: seq<Event>, r: TimeRange)
    ensures var names, top, ns := TopNames(es, r), TopRows(es, r), Names(InRangeEvents(es, r));
      forall n, i :: n in ns && n !in names && 0 <= i < |top| ==> Occurrences(ns, n) <= top[i].count
  {
    var ranked, ns := PerName(InRangeEvents(es, r)), Names(InRangeEvents(es, r));
    var top, names := TopRows(es, r), TopNames(es, r);
    RankedPrefixMaximal(ranked, ns, |top|);
    forall n, i | n in ns && n !in names && 0 <= i < |top| ensures Occurrences(ns, n) <= top[i].count {
      assert forall j :: 0 <= j < |top| ==> top[j].key != n by {
        assert forall j :: 0 <= j < |top| ==> names[j] == top[j].key && names[j] in names;
      }
    }
  }

  /** What `ORDER BY count DESC LIMIT 5` promises of its rows over the names
      `ns`, whatever the order of tied rows: as many rows as distinct names,
      up to five, one per name, each with its count, counts not increasing,
      and no name left out with a higher count than a listed one. */
  ghost predicate AdmissibleTop(top: seq<NamedCount>, ns: seq<string>) {
    && |top| == (if |KeySet(ns)| < 5 then |KeySet(ns)| else 5)
    && (forall i, j :: 0 <= i < j < |top| ==> top[i].key != top[j].key)
    && (forall i :: 0 <= i < |top| ==> top[i].key in ns && top[i].count == Occurrences(ns, top[i].key))
    && (forall i, j :: 0 <= i < j < |top| ==> top[i].count >= top[j].count)
    && (forall n, i :: n in ns && (forall j :: 0 <= j < |top| ==> top[j].key != n) && 0 <= i < |top| ==>
          Occurrences(ns, n) <= top[i].count)
  }

  /** The model's top rows (ties broken by name) are one admissible answer. */
  lemma TopRowsAdmissible(es: seq<Event>, r: TimeRange)
    ensures AdmissibleTop(TopRows(es, r), Names(InRangeEvents(es, r)))
  {
    var ranked, ns := PerName(InRangeEvents(es, r)), Names(InRangeEvents(es, r));
    TopNamesLength(es, r);
    RankedPrefix(ranked, ns, |TopRows(es, r)|);
    RankedPrefixMaximal(ranked, ns, |TopRows(es, r)|);
  }

  /** A `by_name` row. */
  datatype NameBucketCount = NameBucketCount(name: string, bucket: int, count: nat)

  /** The in-range rows whose name is one of `top`: `AND name IN (...)`. */
  function NamedIn(es: seq<Event>, top: seq<string>): (f: seq<Event>)
    ensures forall e :: e in f <==> e in es && e.name in top
    decreases |es|
  {
    if es == [] then []
    else
      var rest := NamedIn(es[1..], top);
      assert forall e :: e in es <==> e == es[0] || e in es[1..];
      if es[0].name in top then [es[0]] + rest else rest
  }

  /** The `(name, bucket)` group keys of the rows, in order. */
  function NameBucketKeys(es: seq<Event>, b: Bucket): (ks: seq<(string, int)>)
    ensures |ks| == |es|
    ensures forall i :: 0 <= i < |es| ==> ks[i] == (es[i].name, BucketKey(es[i].t, b))
  {
    seq(|es|, i requires 0 <= i < |es| => (es[i].name, BucketKey(es[i].t, b)))
  }

  predicate PairBucketAsc(x: Bin<(string, int)>, y: Bin<(string, int)>) {
    x.key.1 <= y.key.1
  }

  /** The rows the by-name query groups: in range and named in `top`. */
  function ByNameEvents(es: seq<Event>, r: TimeRange, top: seq<string>): seq<Event> {
    NamedIn(InRangeEvents(es, r), top)
  }

  /** `SELECT name, bucket, COUNT(*) ... AND name IN (top) GROUP BY name, bucket_utc
      ORDER BY bucket_utc ASC`. The order among rows of one bucket is left to
      the store; the model keeps one. */
  function ByNameBins(es: seq<Event>, r: TimeRange, b: Bucket, top: seq<string>): (bins: seq<Bin<(string, int)>>)
    ensures GroupOf(bins, NameBucketKeys(ByNameEvents(es, r, top), b))
    ensures forall i, j :: 0 <= i < j < |bins| ==> bins[i].key.1 <= bins[j].key.1
  {
    var keys := NameBucketKeys(ByNameEvents(es, r, top), b);
    var g := Group(keys);
    assert TotalPreorder(PairBucketAsc);
    var sorted := SortBy(g, PairBucketAsc);
    GroupOfPermutation(g, sorted, keys);
    sorted
  }

  /** `by_name`: empty when there are no top names (the query is then not
      run), otherwise the by-name rows in ascending bucket order, one per
      (name, bucket) pair. */
  function ByName(es: seq<Event>, r: TimeRange, b: Bucket, top: seq<string>): (rows: seq<NameBucketCount>)
    ensures top == [] ==> rows == []
    ensures top != [] ==> var bins := ByNameBins(es, r, b, top);
      |rows| == |bins| && forall i :: 0 <= i < |rows| ==>
        rows[i] == NameBucketCount(bins[i].key.0, bins[i].key.1, bins[i].count)
    ensures forall i, j :: 0 <= i < j < |rows| ==> rows[i].bucket <= rows[j].bucket
    ensures forall i, j :: 0 <= i < j < |rows| ==> (rows[i].name, rows[i].bucket) != (rows[j].name, rows[j].bucket)
  {
    if top == [] then []
    else
      var bins := ByNameBins(es, r, b, top);
      seq(|bins|, i requires 0 <= i < |bins| => NameBucketCount(bins[i].key.0, bins[i].key.1, bins[i].count))
  }

  /** Every `by_name` row is for one of the top names, and counts the in-range
      rows of that name in that bucket. */
  lemma ByNameCounts(es: seq<Event>, r: TimeRange, b: Bucket, top: seq<string>)
    ensures var rows, keys := ByName(es, r, b, top), NameBucketKeys(ByNameEvents(es, r, top), b);
      forall i :: 0 <= i < |rows| ==>
        && rows[i].name in top
        && rows[i].count == Occurrences(keys, (rows[i].name, rows[i].bucket))
        && rows[i].count > 0
  {
    var f := ByNameEvents(es, r, top);
    var rows, keys, bins := ByName(es, r, b, top), NameBucketKeys(f, b), ByNameBins(es, r, b, top);
    forall i | 0 <= i < |rows|
      ensures rows[i].name in top && rows[i].count == Occurrences(keys, (rows[i].name, rows[i].bucket)) && rows[i].count > 0
    {
      assert bins[i] in bins;
      var p :| 0 <= p < |keys| && keys[p] == bins[i].key;
      assert f[p] in f;
      OccurrencesPresent(keys, p);
    }
  }

  /** Every in-range row named in `top` is counted in some `by_name` row. */
  lemma ByNameCovers(es: seq<Event>, r: TimeRange, b: Bucket, top: seq<string>)
    requires top != []
    ensures var rows := ByName(es, r, b, top);
      forall e :: e in es && InRange(e, r) && e.name in top ==>
        exists i :: 0 <= i < |rows| && rows[i].name == e.name && rows[i].bucket == BucketKey(e.t, b)
  {
    var f := ByNameEvents(es, r, top);
    var rows, keys, bins := ByName(es, r, b, top), NameBucketKeys(f, b), ByNameBins(es, r, b, top);
    forall e | e in es && InRange(e, r) && e.name in top
      ensures exists i :: 0 <= i < |rows| && rows[i].name == e.name && rows[i].bucket == BucketKey(e.t, b)
    {
      assert e in f;
      var p :| 0 <= p < |f| && f[p] == e;
      assert keys[p] in keys;
      var bin :| bin in bins && bin.key == keys[p];
      var i :| 0 <= i < |bins| && bins[i] == bin;
      assert rows[i].name == e.name;
    }
  }

  datatype SeriesReport = SeriesReport(
    bucket: Bucket,
    range: TimeRange,
    topNames: seq<string>,
    total: seq<TotalPoint>,
    byName: seq<NameBucketCount>)

  /** The three queries and the post-processing for a validated bucket and range. */
  function BuildSeries(b: Bucket, range: TimeRange, es: seq<Event>): (rep: SeriesReport)
    ensures rep.bucket == b && rep.range == range
    ensures rep.topNames == TopNames(es, range) && rep.total == TotalSeries(es, range, b)
            && rep.byName == ByName(es, range, b, rep.topNames)
    ensures rep.topNames == [] ==> rep.byName == []
    ensures forall i :: 0 <= i < |rep.byName| ==> rep.byName[i].name in rep.topNames
    ensures |rep.topNames| <= 5
    ensures forall i :: 0 <= i < |rep.total| ==> range.from - Width(b) < rep.total[i].bucket <= range.to
  {
    var top := TopNames(es, range);
    var rep := SeriesReport(b, range, top, TotalSeries(es, range, b), ByName(es, range, b, top));
    TotalSeriesCounts(es, range, b);
    ByNameCounts(es, range, b, top);
    forall i | 0 <= i < |rep.total| ensures range.from - Width(b) < rep.total[i].bucket <= range.to {
      var keys := BucketKeys(InRangeEvents(es, range), b);
      assert rep.total[i].count > 0;
      OccurrencesPositive(keys, rep.total[i].bucket);
      var p :| 0 <= p < |keys| && keys[p] == rep.total[i].bucket;
      assert InRangeEvents(es, range)[p] in InRangeEvents(es, range);
    }
    rep
  }

  lemma {:induction false} OccurrencesPositive<K>(ks: seq<K>, k: K)
    requires Occurrences(ks, k) > 0
    ensures exists p :: 0 <= p < |ks| && ks[p] == k
    decreases |ks|
  {
    if ks[|ks| - 1] != k {
      OccurrencesPositive(ks[..|ks| - 1], k);
      var p :| 0 <= p < |ks| - 1 && ks[..|ks| - 1][p] == k;
      assert ks[p] == k;
    }
  }

  /** `onRequest` of the timeseries handler, the store-fault 500 path aside. */
  function HandleSeries(req: Request, token: Option<string>, now: int, parse: string -> Option<int>,
                        es: seq<Event>): (reply: Reply<SeriesReport>)
    ensures Gate<SeriesReport>(req, token, "GET").Some? ==> reply == Gate<SeriesReport>(req, token, "GET").value
    ensures Gate<SeriesReport>(req, token, "GET").None? && ParseBucket(QueryGet(req.query, "bucket")).None? ==>
      reply == Rejected(BadRequest, "bucket must be hour or day")
    ensures Gate<SeriesReport>(req, token, "GET").None? && ParseBucket(QueryGet(req.query, "bucket")).Some? ==>
      match ResolveRange(now, QueryGet(req.query, "window"), QueryGet(req.query, "from"),
                         QueryGet(req.query, "to"), parse)
      case Failure(_) => reply == Rejected(BadRequest, "Invalid from/to")
      case Success(range) => reply == Ok(BuildSeries(ParseBucket(QueryGet(req.query, "bucket")).value, range, es))
    ensures reply.Ok? ==> reply.body.range.from < reply.body.range.to
  {
    var stop := Gate<SeriesReport>(req, token, "GET");
    if stop.Some? then stop.value
    else
      var q := req.query;
      var bucket := ParseBucket(QueryGet(q, "bucket"));
      if bucket.None? then Rejected(BadRequest, "bucket must be hour or day")
      else
        match ResolveRange(now, QueryGet(q, "window"), QueryGet(q, "from"), QueryGet(q, "to"), parse)
        case Failure(_) => Rejected(BadRequest, "Invalid from/to")
        case Success(range) => Ok(BuildSeries(bucket.value, range, es))
  }

  /** The bucket check comes before the range check: a given bucket that is
      neither "hour" nor "day" in any ASCII case is reported, even when
      `from`/`to` are invalid too. */
  lemma BucketBeforeRange(req: Request, token: Option<string>, now: int, parse: string -> Option<int>,
                          es: seq<Event>)
    requires req.verb == "GET" && Authorized(req.authorization, token)
    requires Present(QueryGet(req.query, "bucket"))
    requires ToLowerAscii(QueryGet(req.query, "bucket").value) != "hour"
    requires ToLowerAscii(QueryGet(req.query, "bucket").value) != "day"
    ensures HandleSeries(req, token, now, parse, es) == Rejected(BadRequest, "bucket must be hour or day")
  {
    assert ParseBucket(QueryGet(req.query, "bucket")).None?;
  }
}
