/** The per-user ledger: one spreadsheet per user holding a header row and one data
    row per registered post (bot.py, the workbook functions).  The file itself is
    modelled as `Sheet`: `None` when it does not exist, otherwise its data rows in
    sheet order; the header row is implicit. */
module Ledger {
  import opened Wrappers

  /** Insertion time as the source writes it (`YYYY-MM-DD HH:MM:SS`); the clock is
      outside the model, so the caller supplies it. */
  type Stamp = string

  /** One data row: columns A (number), B (link), C (status) and D (date added). */
  datatype Row = Row(number: int, link: string, status: string, added: Stamp)

  type Sheet = Option<seq<Row>>

  /** The result of a mutating operation: the sheet afterwards, the value the source
      returns, and whether the operation asked for a backup of the file. */
  datatype Change<T> = Change(sheet: Sheet, value: T, backup: bool)

  /** Data rows of a sheet; a missing file has none. */
  function Rows(f: Sheet): seq<Row>
  {
    match f
    case None => []
    case Some(rows) => rows
  }

  /** The ledger's numbering invariant: the row at position i carries number i + 1. */
  predicate Numbered(rows: seq<Row>)
  {
    forall i :: 0 <= i < |rows| ==> rows[i].number == i + 1
  }

  /** No two rows carry the same link. */
  predicate UniqueLinks(rows: seq<Row>)
  {
    forall i, j :: 0 <= i < j < |rows| ==> rows[i].link != rows[j].link
  }

  /** Position i holds the first row whose link is exactly `link`. */
  predicate FirstWith(rows: seq<Row>, i: int, link: string)
  {
    && 0 <= i < |rows|
    && rows[i].link == link
    && forall j :: 0 <= j < i ==> rows[j].link != link
  }

  /** `after` is `before` without its row i, every later row renumbered to its new
      position and nothing else changed. */
  predicate RemovedAt(before: seq<Row>, after: seq<Row>, i: int)
  {
    && 0 <= i < |before|
    && |after| == |before| - 1
    && after[..i] == before[..i]
    && forall j :: i <= j < |after| ==> after[j] == before[j + 1].(number := j + 1)
  }

  /** `after` is `before` with only the status of row i replaced. */
  predicate RestatusedAt(before: seq<Row>, after: seq<Row>, i: int, status: string)
  {
    && 0 <= i < |before|
    && after == before[i := before[i].(status := status)]
  }

  /** Number of rows whose link is exactly `link`. */
  function Occurrences(rows: seq<Row>, link: string): nat
  {
    if |rows| == 0 then 0
    else (if rows[0].link == link then 1 else 0) + Occurrences(rows[1..], link)
  }

  /** init_user_excel: create the file with only its header when it is missing;
      leave an existing file alone. */
  function Init(f: Sheet): (r: Sheet)
    ensures r.Some?
    ensures f.Some? ==> r == f
    ensures Rows(r) == Rows(f)
  {
    match f
    case None => Some([])
    case Some(_) => f
  }

  /** get_next_number: create the file if needed and return the sheet's last row
      index, which is the number the next added row will get. */
  function NextNumber(f: Sheet): (r: (Sheet, int))
    ensures r.0 == Init(f)
    ensures r.1 == Add(f, "", None, "").value
  {
    var g := Init(f);
    (g, |Rows(g)| + 1)
  }

  /** Python's truth value of an optional string: present and not empty. */
  predicate Truthy(s: Option<string>)
  {
    s.Some? && s.value != ""
  }

  /** Column C as add_post_to_excel writes it: the given status, or "" when none or
      empty was given. */
  function StatusCell(status: Option<string>): (c: string)
    ensures Truthy(status) ==> c == status.value
    ensures !Truthy(status) ==> c == ""
  {
    if Truthy(status) then status.value else ""
  }

  /** add_post_to_excel: append one row numbered one past the current data rows.
      Duplicates are not rejected here, and every add asks for a backup. */
  function Add(f: Sheet, link: string, status: Option<string>, now: Stamp): (r: Change<int>)
    ensures r.sheet.Some? && r.backup
    ensures r.value == |Rows(f)| + 1
    ensures |Rows(r.sheet)| == |Rows(f)| + 1
    ensures Rows(r.sheet)[..|Rows(f)|] == Rows(f)
    ensures Rows(r.sheet)[|Rows(f)|] == Row(r.value, link, StatusCell(status), now)
  {
    var rows := Rows(Init(f));
    var number := |rows| + 1;
    Change(Some(rows + [Row(number, link, StatusCell(status), now)]), number, true)
  }

  /** The scan shared by the delete, update and lookup loops: the first row, top
      to bottom, whose link equals `link` exactly. */
  function FirstRow(rows: seq<Row>, link: string): (r: Option<nat>)
    ensures r.Some? ==> FirstWith(rows, r.value, link)
    ensures r.None? ==> forall j :: 0 <= j < |rows| ==> rows[j].link != link
  {
    if |rows| == 0 then None
    else if rows[0].link == link then Some(0)
    else
      match FirstRow(rows[1..], link)
      case None => None
      case Some(i) => Some(i + 1)
  }

  /** link_exists_in_excel: a missing file contains nothing. */
  function LinkExists(f: Sheet, link: string): (b: bool)
    ensures b <==> f.Some? && exists i :: 0 <= i < |f.value| && f.value[i].link == link
    ensures b <==> Occurrences(Rows(f), link) > 0
  {
    OccurrencesPositive(Rows(f), link);
    match f
    case None => false
    case Some(rows) => FirstRow(rows, link).Some?
  }

  /** The renumbering loop after a deletion: the k-th row of `rows` gets number
      `from + k`, nothing else changes. */
  function Renumber(rows: seq<Row>, from: int): (r: seq<Row>)
    ensures |r| == |rows|
    ensures forall k :: 0 <= k < |r| ==> r[k] == rows[k].(number := from + k)
  {
    if |rows| == 0 then []
    else [rows[0].(number := from)] + Renumber(rows[1..], from + 1)
  }

  /** delete_post_from_excel: remove the first row holding `link` and renumber the
      rows after it.  Returns whether a row was removed; only a removal asks for a
      backup.  A missing file or a link not present changes nothing. */
  function Delete(f: Sheet, link: string): (r: Change<bool>)
    ensures r.backup == r.value
    ensures r.value <==> LinkExists(f, link)
    ensures !r.value ==> r.sheet == f
    ensures r.value ==> r.sheet.Some?
    ensures r.value ==> exists i :: FirstWith(Rows(f), i, link) && RemovedAt(Rows(f), Rows(r.sheet), i)
  {
    match f
    case None => Change(None, false, false)
    case Some(rows) =>
      match FirstRow(rows, link)
      case None => Change(f, false, false)
      case Some(i) =>
        var after := rows[..i] + Renumber(rows[i + 1..], i + 1);
        assert RemovedAt(rows, after, i);
        Change(Some(after), true, true)
  }

  /** update_post_status: overwrite column C of the first row holding `link` with
      `status` as given.  Never asks for a backup. */
  function UpdateStatus(f: Sheet, link: string, status: string): (r: Change<bool>)
    ensures !r.backup
    ensures r.value <==> LinkExists(f, link)
    ensures !r.value ==> r.sheet == f
    ensures r.value ==> r.sheet.Some?
    ensures r.value ==> exists i :: FirstWith(Rows(f), i, link) && RestatusedAt(Rows(f), Rows(r.sheet), i, status)
  {
    match f
    case None => Change(None, false, false)
    case Some(rows) =>
      match FirstRow(rows, link)
      case None => Change(f, false, false)
      case Some(i) =>
        var after := rows[i := rows[i].(status := status)];
        assert RestatusedAt(rows, after, i, status);
        Change(Some(after), true, false)
  }

  lemma {:induction false} OccurrencesPositive(rows: seq<Row>, link: string)
    ensures Occurrences(rows, link) > 0 <==> exists i :: 0 <= i < |rows| && rows[i].link == link
  {
    if |rows| > 0 {
      OccurrencesPositive(rows[1..], link);
      if rows[0].link != link && exists i :: 0 <= i < |rows| && rows[i].link == link {
        var i :| 0 <= i < |rows| && rows[i].link == link;
        assert rows[1..][i - 1].link == link;
      }
    }
  }

  // ---------------------------------------------------------------------------
  // Invariants the operations keep

  /** Every operation keeps the numbers contiguous from 1. */
  lemma OperationsKeepNumbered(f: Sheet, link: string, status: Option<string>, newStatus: string, now: Stamp)
    requires Numbered(Rows(f))
    ensures Numbered(Rows(Init(f)))
    ensures Numbered(Rows(NextNumber(f).0))
    ensures Numbered(Rows(Add(f, link, status, now).sheet))
    ensures Numbered(Rows(Delete(f, link).sheet))
    ensures Numbered(Rows(UpdateStatus(f, link, newStatus).sheet))
  {
    AddKeepsNumbered(f, link, status, now);
    DeleteKeepsNumbered(f, link);
    UpdateKeepsNumbered(f, link, newStatus);
  }

  lemma AddKeepsNumbered(f: Sheet, link: string, status: Option<string>, now: Stamp)
    requires Numbered(Rows(f))
    ensures Numbered(Rows(Add(f, link, status, now).sheet))
  {
    var after := Rows(Add(f, link, status, now).sheet);
    forall j | 0 <= j < |after|
      ensures after[j].number == j + 1
    {
      if j < |Rows(f)| {
        assert after[j] == after[..|Rows(f)|][j];
      }
    }
  }

  lemma DeleteKeepsNumbered(f: Sheet, link: string)
    requires Numbered(Rows(f))
    ensures Numbered(Rows(Delete(f, link).sheet))
  {
    var d := Delete(f, link);
    if d.value {
      var i :| FirstWith(Rows(f), i, link) && RemovedAt(Rows(f), Rows(d.sheet), i);
      RemovedKeepsNumbered(Rows(f), Rows(d.sheet), i);
    }
  }

  /** Removing a row and renumbering the rows after it keeps the numbering. */
  lemma RemovedKeepsNumbered(before: seq<Row>, after: seq<Row>, i: int)
    requires Numbered(before) && RemovedAt(before, after, i)
    ensures Numbered(after)
  {
    forall j | 0 <= j < |after|
      ensures after[j].number == j + 1
    {
      if j < i {
        assert after[j] == after[..i][j];
      }
    }
  }

  lemma UpdateKeepsNumbered(f: Sheet, link: string, status: string)
    requires Numbered(Rows(f))
    ensures Numbered(Rows(UpdateStatus(f, link, status).sheet))
  {
    var u := UpdateStatus(f, link, status);
    if u.value {
      var i :| FirstWith(Rows(f), i, link) && RestatusedAt(Rows(f), Rows(u.sheet), i, status);
    }
  }

  /** Deleting a link that was added last, when it did not occur before, gives back
      the ledger as it was before the add (with the file created). */
  lemma {:induction false} DeleteUndoesFreshAdd(f: Sheet, link: string, status: Option<string>, now: Stamp)
    requires !LinkExists(f, link)
    ensures Delete(Add(f, link, status, now).sheet, link) == Change(Init(f), true, true)
  {
    var a := Add(f, link, status, now).sheet;
    var rows := Rows(f);
    assert Rows(a)[|rows|].link == link;
    assert FirstWith(Rows(a), |rows|, link) by {
      forall j | 0 <= j < |rows|
        ensures Rows(a)[j].link != link
      {
        assert Rows(a)[j] == Rows(a)[..|rows|][j];
      }
    }
    var d := Delete(a, link);
    var i :| FirstWith(Rows(a), i, link) && RemovedAt(Rows(a), Rows(d.sheet), i);
    assert i == |rows|;
    assert Rows(d.sheet) == rows;
  }

  /** Delete-then-re-add: on a ledger whose only row was the deleted link, adding
      the link again gives it number 1 again. */
  lemma DeleteThenReaddRestartsAtOne(link: string, s1: Option<string>, s2: Option<string>, t1: Stamp, t2: Stamp)
    ensures var f := Delete(Add(None, link, s1, t1).sheet, link).sheet;
      Add(f, link, s2, t2).value == 1
  {
    DeleteUndoesFreshAdd(None, link, s1, t1);
  }

  /** On a ledger without duplicate links, a successful delete leaves the link
      absent and keeps the links unique. */
  lemma DeleteRemovesUniqueLink(f: Sheet, link: string)
    requires UniqueLinks(Rows(f))
    ensures !LinkExists(Delete(f, link).sheet, link)
    ensures UniqueLinks(Rows(Delete(f, link).sheet))
  {
    var r := Delete(f, link);
    if r.value {
      var i :| FirstWith(Rows(f), i, link) && RemovedAt(Rows(f), Rows(r.sheet), i);
      RemovedUnique(Rows(f), Rows(r.sheet), i, link);
    }
  }

  /** Taking the only row holding `link` out of a sheet with unique links leaves
      the links unique and `link` absent. */
  lemma RemovedUnique(before: seq<Row>, after: seq<Row>, i: int, link: string)
    requires UniqueLinks(before) && FirstWith(before, i, link) && RemovedAt(before, after, i)
    ensures UniqueLinks(after)
    ensures forall j :: 0 <= j < |after| ==> after[j].link != link
  {
    forall j | 0 <= j < |after|
      ensures after[j].link == (if j < i then before[j].link else before[j + 1].link)
    {
      if j < i {
        assert after[j] == after[..i][j];
      }
    }
  }

  /** Adding a link that is already present is not refused: the sheet then holds
      it one more time. */
  lemma {:induction false} AddKeepsDuplicates(f: Sheet, link: string, status: Option<string>, now: Stamp)
    ensures Occurrences(Rows(Add(f, link, status, now).sheet), link) == Occurrences(Rows(f), link) + 1
  {
    var rows := Rows(f);
    var after := Rows(Add(f, link, status, now).sheet);
    assert after == rows + [after[|rows|]];
    OccurrencesAppend(rows, after[|rows|], link);
  }

  lemma {:induction false} OccurrencesAppend(rows: seq<Row>, last: Row, link: string)
    ensures Occurrences(rows + [last], link) == Occurrences(rows, link) + (if last.link == link then 1 else 0)
  {
    if |rows| > 0 {
      assert (rows + [last])[1..] == rows[1..] + [last];
      OccurrencesAppend(rows[1..], last, link);
    }
  }

  /** Updating a status touches only column C: numbers, links and dates of every
      row are as before, and the row count is unchanged. */
  lemma UpdateStatusKeepsOtherColumns(f: Sheet, link: string, status: string)
    ensures var after := Rows(UpdateStatus(f, link, status).sheet);
      |after| == |Rows(f)| &&
      forall j :: 0 <= j < |after| ==>
        after[j].number == Rows(f)[j].number && after[j].link == Rows(f)[j].link &&
        after[j].added == Rows(f)[j].added
  {
  }
}
