/** The counting behind the /stats command (bot.py:393-418): the number of data
    rows and, for every non-empty status, how many rows carry it, in the order the
    statuses first appear (the order a Python dict keeps its keys in). */
module Tally {
  import opened Wrappers
  import opened Ledger

  /** Status label paired with its row count, in first-appearance order. */
  type Histogram = seq<(string, nat)>

  datatype Summary =
    | NoFile                                  // the user's file does not exist
    | Summary(total: nat, byStatus: Histogram)

  /** Number of rows whose status is exactly `status`. */
  function CountStatus(rows: seq<Row>, status: string): nat
  {
    if |rows| == 0 then 0
    else CountStatus(rows[..|rows| - 1], status) + (if rows[|rows| - 1].status == status then 1 else 0)
  }

  predicate DistinctKeys(h: Histogram)
  {
    forall a, b :: 0 <= a < b < |h| ==> h[a].0 != h[b].0
  }

  /** Sum of all counts in a histogram. */
  function Total(h: Histogram): nat
  {
    if |h| == 0 then 0 else Total(h[..|h| - 1]) + h[|h| - 1].1
  }

  /** Position of `status` among the histogram's keys, if it is there. */
  function KeyIndex(h: Histogram, status: string): (r: Option<nat>)
    ensures r.Some? ==> r.value < |h| && h[r.value].0 == status
    ensures r.None? ==> forall k :: 0 <= k < |h| ==> h[k].0 != status
  {
    if |h| == 0 then None
    else if h[|h| - 1].0 == status then Some(|h| - 1)
    else KeyIndex(h[..|h| - 1], status)
  }

  /** One step of the counting loop: a falsy status is skipped, a known status gets
      its count raised by one, a new status is appended with count 1. */
  function Bump(h: Histogram, status: string): (r: Histogram)
    requires DistinctKeys(h)
    ensures DistinctKeys(r)
    ensures Total(r) == Total(h) + (if status == "" then 0 else 1)
  {
    if status == "" then h
    else
      match KeyIndex(h, status)
      case Some(k) =>
        TotalUpdate(h, k, h[k].1 + 1);
        h[k := (status, h[k].1 + 1)]
      case None => h + [(status, 1)]
  }

  /** Every key of the histogram is a non-empty status with the number of rows
      carrying it. */
  predicate CountsRows(h: Histogram, rows: seq<Row>)
  {
    forall k :: 0 <= k < |h| ==> h[k].0 != "" && h[k].1 == CountStatus(rows, h[k].0)
  }

  /** Every non-empty status of the rows is a key of the histogram. */
  predicate CoversRows(h: Histogram, rows: seq<Row>)
  {
    forall i :: 0 <= i < |rows| && rows[i].status != "" ==> KeyIndex(h, rows[i].status).Some?
  }

  /** The statuses dictionary of bot.py:404-408, built row by row from the top. */
  function TallyOf(rows: seq<Row>): (h: Histogram)
    ensures DistinctKeys(h)
  {
    if |rows| == 0 then []
    else Bump(TallyOf(rows[..|rows| - 1]), rows[|rows| - 1].status)
  }

  /** The histogram counts what the rows hold: every key is a non-empty status
      with the number of rows carrying it, and every non-empty status is a key. */
  lemma {:induction false} TallyCounts(rows: seq<Row>)
    ensures CountsRows(TallyOf(rows), rows)
    ensures CoversRows(TallyOf(rows), rows)
  {
    if |rows| > 0 {
      var init := rows[..|rows| - 1];
      var last := rows[|rows| - 1];
      TallyCounts(init);
      BumpCounts(TallyOf(init), init, last);
      assert init + [last] == rows;
    }
  }

  /** One more row keeps the histogram in step with the rows: every key counts its
      rows, and every non-empty status is a key. */
  lemma BumpCounts(h: Histogram, init: seq<Row>, last: Row)
    requires DistinctKeys(h)
    requires CountsRows(h, init) && CoversRows(h, init)
    ensures CountsRows(Bump(h, last.status), init + [last])
    ensures CoversRows(Bump(h, last.status), init + [last])
  {
    BumpKeepsCounts(h, init, last);
    BumpKeepsCovered(h, init, last);
  }

  lemma BumpKeepsCounts(h: Histogram, init: seq<Row>, last: Row)
    requires DistinctKeys(h)
    requires CountsRows(h, init) && CoversRows(h, init)
    ensures CountsRows(Bump(h, last.status), init + [last])
  {
    var rows := init + [last];
    assert rows[..|rows| - 1] == init;
    var r := Bump(h, last.status);
    forall k | 0 <= k < |r|
      ensures r[k].0 != "" && r[k].1 == CountStatus(rows, r[k].0)
    {
      assert CountStatus(rows, r[k].0) == CountStatus(init, r[k].0) + (if last.status == r[k].0 then 1 else 0);
      if last.status == "" {
        assert r == h;
      } else if KeyIndex(h, last.status).None? {
        if k == |h| {
          assert CountStatus(init, last.status) == 0 by { CountAbsent(init, h, last.status); }
        } else {
          assert r[k] == h[k];
        }
      } else {
        var m := KeyIndex(h, last.status).value;
        if k == m {
          assert r[k] == (last.status, h[k].1 + 1);
        } else {
          assert r[k] == h[k];
        }
      }
    }
  }

  lemma BumpKeepsCovered(h: Histogram, init: seq<Row>, last: Row)
    requires DistinctKeys(h) && CoversRows(h, init)
    ensures CoversRows(Bump(h, last.status), init + [last])
  {
    var rows := init + [last];
    var r := Bump(h, last.status);
    forall i | 0 <= i < |rows| && rows[i].status != ""
      ensures KeyIndex(r, rows[i].status).Some?
    {
      if i < |init| {
        assert rows[i] == init[i];
        var k := KeyIndex(h, init[i].status).value;
        assert r[k].0 == init[i].status;
      } else if KeyIndex(h, last.status).None? {
        assert r[|h|].0 == last.status;
      } else {
        var k := KeyIndex(h, last.status).value;
        assert r[k].0 == last.status;
      }
    }
  }

  /** A status that is not a key is carried by no row. */
  lemma {:induction false} CountAbsent(rows: seq<Row>, h: Histogram, status: string)
    requires status != ""
    requires CoversRows(h, rows)
    requires KeyIndex(h, status).None?
    ensures CountStatus(rows, status) == 0
  {
    if |rows| > 0 {
      var init := rows[..|rows| - 1];
      assert forall i :: 0 <= i < |init| ==> init[i] == rows[i];
      CountAbsent(init, h, status);
    }
  }

  lemma {:induction false} TotalUpdate(h: Histogram, k: nat, v: nat)
    requires k < |h|
    ensures Total(h[k := (h[k].0, v)]) == Total(h) - h[k].1 + v
  {
    var u := h[k := (h[k].0, v)];
    if k < |h| - 1 {
      assert u[..|u| - 1] == h[..|h| - 1][k := (h[k].0, v)];
      TotalUpdate(h[..|h| - 1], k, v);
    } else {
      assert u[..|u| - 1] == h[..|h| - 1];
    }
  }

  /** The /stats reply's data: nothing when the file is missing, otherwise the row
      count and the histogram of non-empty statuses. */
  function Stats(f: Sheet): (s: Summary)
    ensures f.None? <==> s.NoFile?
    ensures s.Summary? ==> s.total == |Rows(f)|
    ensures s.Summary? ==> forall k :: 0 <= k < |s.byStatus| ==>
      s.byStatus[k].0 != "" && s.byStatus[k].1 == CountStatus(Rows(f), s.byStatus[k].0)
    ensures s.Summary? ==> DistinctKeys(s.byStatus) && CoversRows(s.byStatus, Rows(f))
    ensures s.Summary? ==> FirstAppearanceOrder(s.byStatus, Rows(f))
  {
    match f
    case None => NoFile
    case Some(rows) =>
      TallyCounts(rows);
      TallyInFirstAppearanceOrder(rows);
      Summary(|rows|, TallyOf(rows))
  }

  /** Every row is accounted for exactly once: the histogram's counts plus the rows
      with an empty status add up to the reported total. */
  lemma {:induction false} TallyAccountsForEveryRow(rows: seq<Row>)
    ensures Total(TallyOf(rows)) + CountStatus(rows, "") == |rows|
  {
    if |rows| > 0 {
      var init := rows[..|rows| - 1];
      TallyAccountsForEveryRow(init);
    }
  }

  /** Position of the first row whose status is `status`, or the number of rows
      when there is none. */
  function FirstIndex(rows: seq<Row>, status: string): (f: nat)
    ensures f <= |rows|
    ensures f < |rows| ==> rows[f].status == status
    ensures forall j :: 0 <= j < f ==> rows[j].status != status
  {
    if |rows| == 0 then 0
    else
      var init := rows[..|rows| - 1];
      var f := FirstIndex(init, status);
      if f < |init| then f
      else if rows[|rows| - 1].status == status then |init|
      else |rows|
  }

  /** The histogram's keys stand in the order their statuses first appear in the
      rows, and each of them does appear. */
  ghost predicate FirstAppearanceOrder(h: Histogram, rows: seq<Row>)
  {
    && (forall k :: 0 <= k < |h| ==> FirstIndex(rows, h[k].0) < |rows|)
    && (forall a, b :: 0 <= a < b < |h| ==> FirstIndex(rows, h[a].0) < FirstIndex(rows, h[b].0))
  }

  /** Bump keeps the keys it had, in place, and appends only a new non-empty key. */
  lemma BumpKeys(h: Histogram, status: string)
    requires DistinctKeys(h)
    ensures var r := Bump(h, status);
      && (forall x :: 0 <= x < |h| ==> r[x].0 == h[x].0)
      && (|r| == |h| || (status != "" && KeyIndex(h, status).None? && r == h + [(status, 1)]))
  {
  }

  /** The histogram lists its statuses in the order they first appear in the
      sheet, as the dictionary the source fills does. */
  lemma {:induction false} TallyInFirstAppearanceOrder(rows: seq<Row>)
    ensures FirstAppearanceOrder(TallyOf(rows), rows)
  {
    if |rows| == 0 {
      assert TallyOf(rows) == [];
    } else {
      var init := rows[..|rows| - 1];
      var last := rows[|rows| - 1];
      assert rows == init + [last];
      TallyInFirstAppearanceOrder(init);
      TallyCounts(init);
      BumpKeepsOrder(TallyOf(init), init, last);
    }
  }

  /** One more row keeps the first position of every status already present, and
      is the first position of its own status when that is new. */
  lemma FirstIndexAppend(init: seq<Row>, last: Row, status: string)
    ensures var f := FirstIndex(init, status);
      FirstIndex(init + [last], status) ==
        (if f < |init| then f else if last.status == status then |init| else |init| + 1)
  {
    assert (init + [last])[..|init|] == init;
  }

  /** One more row keeps the keys in first-appearance order. */
  lemma BumpKeepsOrder(h: Histogram, init: seq<Row>, last: Row)
    requires DistinctKeys(h) && FirstAppearanceOrder(h, init) && CoversRows(h, init)
    ensures FirstAppearanceOrder(Bump(h, last.status), init + [last])
  {
    var rows := init + [last];
    var r := Bump(h, last.status);
    BumpKeys(h, last.status);
    forall k | 0 <= k < |h|
      ensures FirstIndex(rows, r[k].0) == FirstIndex(init, h[k].0)
    {
      FirstIndexAppend(init, last, h[k].0);
    }
    if |r| > |h| {
      forall i | 0 <= i < |init|
        ensures init[i].status != last.status
      {
        if init[i].status != "" {
          assert KeyIndex(h, init[i].status).Some?;
        }
      }
      FirstIndexAppend(init, last, last.status);
    }
  }

  /** What an add does to the statistics: a non-empty status gains exactly one row
      and every other status keeps its count; an add without a status leaves the
      histogram as it was. */
  lemma AddTalliesStatus(f: Sheet, link: string, status: Option<string>, now: Stamp)
    ensures var after := Rows(Add(f, link, status, now).sheet);
      Truthy(status) ==> CountStatus(after, status.value) == CountStatus(Rows(f), status.value) + 1
    ensures var after := Rows(Add(f, link, status, now).sheet);
      forall x :: x != StatusCell(status) ==> CountStatus(after, x) == CountStatus(Rows(f), x)
    ensures !Truthy(status) ==> TallyOf(Rows(Add(f, link, status, now).sheet)) == TallyOf(Rows(f))
  {
    var after := Rows(Add(f, link, status, now).sheet);
    assert after[..|after| - 1] == Rows(f);
  }
}
