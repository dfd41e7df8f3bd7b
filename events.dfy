/**
 * The event table `nfk_events` as the read queries see it: a sequence of
 * rows in insertion order. `t` is `created_at_utc` as milliseconds; since
 * `toISOString` is monotone, `created_at_utc >= ? AND created_at_utc <= ?`
 * is the integer test `from <= t <= to`.
 */
module Events {
  import opened RangeResolver

  datatype Event = Event(id: nat, t: int, name: string)

  /** The store assigns ids in increasing order and never deletes a row. */
  predicate IdsAscending(es: seq<Event>) {
    forall i, j :: 0 <= i < j < |es| ==> es[i].id < es[j].id
  }

  /** `WHERE created_at_utc >= from AND created_at_utc <= to`, inclusive at both ends. */
  predicate InRange(e: Event, r: TimeRange) {
    r.from <= e.t <= r.to
  }

  /** The rows the range filter keeps, in table order. */
  function InRangeEvents(es: seq<Event>, r: TimeRange): (f: seq<Event>)
    ensures |f| <= |es|
    ensures forall e :: e in f <==> e in es && InRange(e, r)
    decreases |es|
  {
    if es == [] then []
    else
      var rest := InRangeEvents(es[1..], r);
      assert forall e :: e in es <==> e == es[0] || e in es[1..];
      if InRange(es[0], r) then [es[0]] + rest else rest
  }

  /** Filtering keeps table order, so ids stay ascending. */
  lemma {:induction false} InRangeKeepsOrder(es: seq<Event>, r: TimeRange)
    requires IdsAscending(es)
    ensures IdsAscending(InRangeEvents(es, r))
    decreases |es|
  {
    if es != [] {
      var rest := InRangeEvents(es[1..], r);
      assert IdsAscending(es[1..]);
      InRangeKeepsOrder(es[1..], r);
      forall j | 0 <= j < |rest| ensures es[0].id < rest[j].id {
        assert rest[j] in es[1..];
        var k :| 0 <= k < |es[1..]| && es[1..][k] == rest[j];
        assert es[k + 1] == rest[j];
      }
    }
  }

  /** The `name` column of the rows, in order. */
  function Names(es: seq<Event>): (ns: seq<string>)
    ensures |ns| == |es|
    ensures forall i :: 0 <= i < |es| ==> ns[i] == es[i].name
  {
    seq(|es|, i requires 0 <= i < |es| => es[i].name)
  }

  /** The id the store gives the next row: one more than the last (the
      largest) id, 1 for an empty table. */
  function NextId(es: seq<Event>): (id: nat)
    ensures id > 0
    ensures IdsAscending(es) ==> forall e :: e in es ==> e.id < id
  {
    if es == [] then 1 else es[|es| - 1].id + 1
  }

  /** Appending a row with the next id keeps ids ascending. */
  lemma AppendKeepsOrder(es: seq<Event>, t: int, name: string)
    requires IdsAscending(es)
    ensures IdsAscending(es + [Event(NextId(es), t, name)])
  {
    var es' := es + [Event(NextId(es), t, name)];
    forall i, j | 0 <= i < j < |es'| ensures es'[i].id < es'[j].id {
      if j == |es| {
        assert es'[i] in es;
      }
    }
  }

  /** A row appended in range is the last row the range filter keeps. */
  lemma {:induction false} InRangeAppend(es: seq<Event>, e: Event, r: TimeRange)
    requires InRange(e, r)
    ensures InRangeEvents(es + [e], r) == InRangeEvents(es, r) + [e]
    decreases |es|
  {
    if es == [] {
      assert [] + [e] == [e];
      assert [e][1..] == [];
    } else {
      assert (es + [e])[1..] == es[1..] + [e];
      InRangeAppend(es[1..], e, r);
    }
  }
}
