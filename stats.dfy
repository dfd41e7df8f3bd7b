/**
 * The statistics handler (`GET /api/stats`): the gate, the shared range
 * block, and the five read queries with the defaults applied to their
 * results.
 */
module Stats {
  import opened Wrappers
  import opened Text
  import opened Sorting
  import opened Grouping
  import opened RangeResolver
  import opened Events
  import opened Http

  /** A `{name, count}` row of a `GROUP BY name` query. */
  type NamedCount = Bin<string>

  /** A `recent` entry: the row's name and its `created_at_utc`. */
  datatype RecentRow = RecentRow(name: string, createdAt: int)

  datatype StatsReport = StatsReport(
    range: TimeRange,
    allTimeTotal: nat,
    allTimePerName: seq<NamedCount>,
    rangeTotal: nat,
    rangePerName: seq<NamedCount>,
    recent: seq<RecentRow>)

  const RecentLimit: nat := 50

  /** `ORDER BY count DESC, name ASC` as an order on rows. */
  predicate CountDescNameAsc(a: NamedCount, b: NamedCount) {
    a.count > b.count || (a.count == b.count && StrLe(a.key, b.key))
  }

  lemma CountDescNameAscIsTotalPreorder()
    ensures TotalPreorder(CountDescNameAsc)
  {
    forall a: NamedCount, b: NamedCount ensures CountDescNameAsc(a, b) || CountDescNameAsc(b, a) {
      StrLeTotal(a.key, b.key);
    }
    forall a: NamedCount, b: NamedCount, c: NamedCount | CountDescNameAsc(a, b) && CountDescNameAsc(b, c)
      ensures CountDescNameAsc(a, c)
    {
      if a.count == b.count == c.count {
        StrLeTransitive(a.key, b.key, c.key);
      }
    }
  }

  /** Every earlier row has a higher count, or the same count and a smaller name. */
  predicate Ranked(rows: seq<NamedCount>) {
    forall i, j :: 0 <= i < j < |rows| ==>
      rows[i].count > rows[j].count
      || (rows[i].count == rows[j].count && StrLe(rows[i].key, rows[j].key) && rows[i].key != rows[j].key)
  }

  /** `SELECT name, COUNT(*) ... GROUP BY name ORDER BY count DESC, name ASC` over `es`. */
  function PerName(es: seq<Event>): (rows: seq<NamedCount>)
    ensures GroupOf(rows, Names(es))
    ensures Ranked(rows)
  {
    CountDescNameAscIsTotalPreorder();
    var g := Group(Names(es));
    var rows := SortBy(g, CountDescNameAsc);
    GroupOfPermutation(g, rows, Names(es));
    rows
  }

  /** The order a ranked grouping comes in is the only one: count descending
      then name ascending leaves no ties, so any two ranked groupings of the
      same names are equal. */
  lemma {:induction false} RankedGroupingUnique(a: seq<NamedCount>, b: seq<NamedCount>, ns: seq<string>)
    requires GroupOf(a, ns) && Ranked(a)
    requires GroupOf(b, ns) && Ranked(b)
    ensures a == b
    decreases |a|
  {
    GroupSums(a, ns);
    GroupSums(b, ns);
    if a != [] {
      HeadsEqual(a, b, ns);
      var ns' := Without(ns, a[0].key);
      HeadRemoved(a, ns);
      HeadRemoved(b, ns);
      RankedGroupingUnique(a[1..], b[1..], ns');
      assert a == [a[0]] + a[1..] && b == [b[0]] + b[1..];
    }
  }

  /** Two ranked groupings of the same names start with the same row. */
  lemma HeadsEqual(a: seq<NamedCount>, b: seq<NamedCount>, ns: seq<string>)
    requires GroupOf(a, ns) && Ranked(a)
    requires GroupOf(b, ns) && Ranked(b)
    requires a != [] && b != []
    ensures a[0] == b[0]
  {
    var x, y := a[0], b[0];
    assert x in a && y in b;
    var bx :| bx in b && bx.key == x.key;
    var ay :| ay in a && ay.key == y.key;
    var i :| 0 <= i < |a| && a[i] == ay;
    var j :| 0 <= j < |b| && b[j] == bx;
    assert bx.count == x.count && ay.count == y.count;
    if x.key != y.key {
      assert i > 0 && j > 0;
      assert StrLe(x.key, y.key) && StrLe(y.key, x.key);
      StrLeAntisymmetric(x.key, y.key);
    }
  }

  /** Dropping the first bin of a ranked grouping leaves a ranked grouping of the other names. */
  lemma HeadRemoved(a: seq<NamedCount>, ns: seq<string>)
    requires GroupOf(a, ns) && Ranked(a) && a != []
    ensures GroupOf(a[1..], Without(ns, a[0].key)) && Ranked(a[1..])
  {
    var ns' := Without(ns, a[0].key);
    forall c | c in a[1..] ensures c.key != a[0].key && c in a {
      var i :| 0 <= i < |a[1..]| && a[1..][i] == c;
      assert a[i + 1] == c;
    }
    forall k | k in ns' ensures exists c :: c in a[1..] && c.key == k {
      var c :| c in a && c.key == k;
      var i :| 0 <= i < |a| && a[i] == c;
      assert i > 0;
      assert a[1..][i - 1] == c;
    }
  }

  /** The `{a:3, b:3, c:5}` ordering: c first, then a and b by name. */
  lemma RankingExample()
    ensures Ranked([Bin("c", 5), Bin("a", 3), Bin("b", 3)])
    ensures !Ranked([Bin("a", 3), Bin("b", 3), Bin("c", 5)])
    ensures !Ranked([Bin("c", 5), Bin("b", 3), Bin("a", 3)])
  {
    assert StrLe("a", "b");
    assert !StrLe("b", "a");
    var up: seq<NamedCount> := [Bin("a", 3), Bin("b", 3), Bin("c", 5)];
    assert !(up[0].count > up[2].count || up[0].count == up[2].count);
    var swapped: seq<NamedCount> := [Bin("c", 5), Bin("b", 3), Bin("a", 3)];
    assert !(swapped[1].count > swapped[2].count || StrLe(swapped[1].key, swapped[2].key));
  }

  /** `SELECT ... ORDER BY id DESC LIMIT 50` after the range filter: the
      in-range rows from the last back, at most 50 of them. Reverse table
      order is `id DESC` only where ids ascend along the table
      (`IdsAscending`, which `Ingest.EventLog` keeps as its invariant);
      `RecentIsNewest` states the id order under that condition. */
  function Recent(es: seq<Event>, r: TimeRange): (rs: seq<Event>)
    ensures |rs| == if |InRangeEvents(es, r)| < RecentLimit then |InRangeEvents(es, r)| else RecentLimit
    ensures forall e :: e in rs ==> e in es && InRange(e, r)
  {
    var f := InRangeEvents(es, r);
    var n := if |f| < RecentLimit then |f| else RecentLimit;
    var rs := seq(n, k requires 0 <= k < n => f[|f| - 1 - k]);
    assert forall e :: e in rs ==> e in f by {
      forall e | e in rs ensures e in f {
        var k :| 0 <= k < n && rs[k] == e;
      }
    }
    rs
  }

  /** With ids ascending in the table, `recent` is ordered by id strictly
      descending, and it holds the highest ids in range: a missing in-range
      row has a smaller id than every row listed. */
  lemma RecentIsNewest(es: seq<Event>, r: TimeRange)
    requires IdsAscending(es)
    ensures var rs := Recent(es, r);
      && (forall i, j :: 0 <= i < j < |rs| ==> rs[i].id > rs[j].id)
      && (forall e, x :: e in es && InRange(e, r) && e !in rs && x in rs ==> e.id < x.id)
  {
    var f := InRangeEvents(es, r);
    InRangeKeepsOrder(es, r);
    var rs := Recent(es, r);
    assert forall k :: 0 <= k < |rs| ==> rs[k] == f[|f| - 1 - k];
    assert forall q :: |f| - |rs| <= q < |f| ==> f[q] == rs[|f| - 1 - q];
    forall e, x | e in es && InRange(e, r) && e !in rs && x in rs ensures e.id < x.id {
      var p :| 0 <= p < |f| && f[p] == e;
      var k :| 0 <= k < |rs| && rs[k] == x;
      assert p < |f| - |rs|;
    }
  }

  /** The JSON body, with `?? 0` and `?? []` applied to each query result
      (`None` where the store answered with no row). */
  function Assemble(range: TimeRange, allTimeTotal: Option<nat>, allTimePerName: Option<seq<NamedCount>>,
                    rangeTotal: Option<nat>, rangePerName: Option<seq<NamedCount>>,
                    recent: Option<seq<Event>>): (rep: StatsReport)
    ensures rep.range == range
    ensures allTimeTotal.None? ==> rep.allTimeTotal == 0
    ensures allTimeTotal.Some? ==> rep.allTimeTotal == allTimeTotal.value
    ensures allTimePerName.None? ==> rep.allTimePerName == []
    ensures allTimePerName.Some? ==> rep.allTimePerName == allTimePerName.value
    ensures rangeTotal.None? ==> rep.rangeTotal == 0
    ensures rangeTotal.Some? ==> rep.rangeTotal == rangeTotal.value
    ensures rangePerName.None? ==> rep.rangePerName == []
    ensures rangePerName.Some? ==> rep.rangePerName == rangePerName.value
    ensures recent.None? ==> rep.recent == []
    ensures recent.Some? ==> |rep.recent| == |recent.value|
    ensures recent.Some? ==> forall k :: 0 <= k < |rep.recent| ==>
      rep.recent[k] == RecentRow(recent.value[k].name, recent.value[k].t)
  {
    var rows := recent.GetOr([]);
    StatsReport(range, allTimeTotal.GetOr(0), allTimePerName.GetOr([]), rangeTotal.GetOr(0),
                rangePerName.GetOr([]), seq(|rows|, k requires 0 <= k < |rows| => RecentRow(rows[k].name, rows[k].t)))
  }

  /** The five queries run against the table `es` for the resolved range:
      the table size, the per-name ranking of the table, the number of rows
      in range, their per-name ranking, and the newest of them. */
  function BuildStats(range: TimeRange, es: seq<Event>): (rep: StatsReport)
    ensures rep.range == range
    ensures rep.allTimeTotal == |es| && rep.allTimePerName == PerName(es)
    ensures rep.rangeTotal == |InRangeEvents(es, range)| && rep.rangePerName == PerName(InRangeEvents(es, range))
    ensures |rep.recent| == |Recent(es, range)|
    ensures forall k :: 0 <= k < |rep.recent| ==>
      rep.recent[k] == RecentRow(Recent(es, range)[k].name, Recent(es, range)[k].t)
  {
    var f := InRangeEvents(es, range);
    Assemble(range, Some(|es|), Some(PerName(es)), Some(|f|), Some(PerName(f)), Some(Recent(es, range)))
  }

  /** The range total counts at most every row, and each per-name list adds
      up to its total. */
  lemma StatsTotalsAgree(range: TimeRange, es: seq<Event>)
    ensures var rep := BuildStats(range, es);
      && rep.rangeTotal <= rep.allTimeTotal
      && Total(rep.allTimePerName) == rep.allTimeTotal
      && Total(rep.rangePerName) == rep.rangeTotal
  {
    var f := InRangeEvents(es, range);
    GroupSums(PerName(es), Names(es));
    GroupSums(PerName(f), Names(f));
  }

  /** `recent` has at most 50 entries, no more than the range total, all in range. */
  lemma StatsRecentInRange(range: TimeRange, es: seq<Event>)
    ensures var rep := BuildStats(range, es);
      && |rep.recent| <= RecentLimit && |rep.recent| <= rep.rangeTotal
      && forall k :: 0 <= k < |rep.recent| ==> range.from <= rep.recent[k].createdAt <= range.to
  {
    var rs := Recent(es, range);
    assert forall k :: 0 <= k < |rs| ==> rs[k] in rs;
  }

  /** `onRequest` of the statistics handler. */
  function HandleStats(req: Request, token: Option<string>, now: int, parse: string -> Option<int>,
                       es: seq<Event>): (reply: Reply<StatsReport>)
    ensures Gate<StatsReport>(req, token, "GET").Some? ==> reply == Gate<StatsReport>(req, token, "GET").value
    ensures Gate<StatsReport>(req, token, "GET").None? ==>
      match ResolveRange(now, QueryGet(req.query, "window"), QueryGet(req.query, "from"),
                         QueryGet(req.query, "to"), parse)
      case Failure(_) => reply == Rejected(BadRequest, "Invalid from/to")
      case Success(range) => reply == Ok(BuildStats(range, es))
    ensures reply.Ok? ==> reply.body.range.from < reply.body.range.to
    ensures reply.Ok? ==> reply.body.allTimeTotal == |es| && Total(reply.body.rangePerName) == reply.body.rangeTotal
  {
    var stop := Gate<StatsReport>(req, token, "GET");
    if stop.Some? then stop.value
    else
      var q := req.query;
      match ResolveRange(now, QueryGet(q, "window"), QueryGet(q, "from"), QueryGet(q, "to"), parse)
      case Failure(_) => Rejected(BadRequest, "Invalid from/to")
      case Success(range) =>
        StatsTotalsAgree(range, es);
        Ok(BuildStats(range, es))
  }

  /** The bearer check comes before the range check: an unauthorized GET gets
      401 even when its `from`/`to` are invalid. */
  lemma AuthBeforeRange(req: Request, token: Option<string>, now: int, parse: string -> Option<int>, es: seq<Event>)
    requires req.verb == "GET" && !Authorized(req.authorization, token)
    ensures HandleStats(req, token, now, parse, es) == Rejected(Unauthorized, "Unauthorized")
  {
  }
}
