/** The job-queue table of both front-ends, and how one job record sent by
    the worker is reconciled into it: find the row with the record's id or
    append one, overwrite the progress, then recompute the status icon. */
module Jobs {
  import opened Text

  /** The status icon of a queue row (the PENDING, PROGRESS, OK, ERROR and
      STOP pixmaps). */
  datatype Status = Pending | Progress | Ok | Error | Stop

  /** One decoded `queue_status` / `get_queue` record. `percentage` is the
      value after Python's `int(...)`. */
  datatype JobRecord = JobRecord(
    id: string, target: string, command: string, percentage: int,
    started: bool, finished: bool, error: bool, stopped: bool, stale: bool)

  /** One row of the queue table: the texts of the ID, Process and Disk
      columns, the status icon and the value of the progress bar. */
  datatype QueueRow = QueueRow(id: string, process: string, drive: string, status: Status, progress: int)

  /** The queue table's columns, in order. */
  const QueueColumns: seq<string> := ["ID", "Process", "Disk", "Status", "Progress"]

  /** Commands that have a Process label of their own. */
  const KnownModes: set<string> := {"queued_badblocks", "queued_smartctl", "smartctl", "queued_cannolo"}

  /** The Process column text that update_queue derives from the job's command. */
  function ProcessLabel(mode: string): (name: string)
    ensures name == "Erase" <==> mode == "queued_badblocks"
    ensures name == "Smart check" <==> mode == "queued_smartctl" || mode == "smartctl"
    ensures name == "Cannolo" <==> mode == "queued_cannolo"
    ensures name == "Unknown" <==> mode !in KnownModes
  {
    if mode == "queued_badblocks" then "Erase"
    else if mode == "queued_smartctl" || mode == "smartctl" then "Smart check"
    else if mode == "queued_cannolo" then "Cannolo"
    else "Unknown"
  }

  /** The row update_queue appends: progress bar at 0 and the PENDING icon. */
  function NewRow(id: string, drive: string, mode: string): QueueRow {
    QueueRow(id, ProcessLabel(mode), drive, Pending, 0)
  }

  predicate HasId(rows: seq<QueueRow>, id: string) {
    exists j :: 0 <= j < |rows| && rows[j].id == id
  }

  /** No two rows show the same id in column 0. */
  predicate UniqueIds(rows: seq<QueueRow>) {
    forall i, j :: 0 <= i < j < |rows| ==> rows[i].id != rows[j].id
  }

  /** The index of the first row whose id is `id`, or `|rows|` if there is none. */
  function FindRow(rows: seq<QueueRow>, id: string): (k: nat)
    ensures k <= |rows|
    ensures k < |rows| ==> rows[k].id == id
    ensures forall j :: 0 <= j < k ==> rows[j].id != id
    ensures k < |rows| <==> HasId(rows, id)
    decreases |rows|
  {
    if rows == [] then 0
    else if rows[0].id == id then 0
    else
      var k := 1 + FindRow(rows[1..], id);
      assert forall j :: 1 <= j < k ==> rows[j] == rows[1..][j - 1];
      k
  }

  /** FindRow only looks at ids: replacing a row by one with the same id does
      not move the first match of any id. */
  lemma FindRowSameIds(rows: seq<QueueRow>, k: nat, row: QueueRow, id: string)
    requires k < |rows| && rows[k].id == row.id
    ensures FindRow(rows[k := row], id) == FindRow(rows, id)
  {
    var t := rows[k := row];
    assert forall j :: 0 <= j < |rows| ==> (t[j].id == id <==> rows[j].id == id);
    var a, b := FindRow(t, id), FindRow(rows, id);
    assert a <= b by {
      assert b < |rows| ==> t[b].id == id;
    }
    assert b <= a by {
      assert a < |t| ==> rows[a].id == id;
    }
  }

  /** Find-or-create: the table after the search loop of gui_update and the
      row the record is then written to. */
  function Locate(rows: seq<QueueRow>, rec: JobRecord): (res: (seq<QueueRow>, nat))
    ensures res.1 < |res.0| && res.0[res.1].id == rec.id
    ensures res.1 == FindRow(res.0, rec.id) == FindRow(rows, rec.id)
    ensures HasId(rows, rec.id) ==> res.0 == rows
    ensures !HasId(rows, rec.id) ==> res.0 == rows + [NewRow(rec.id, rec.target, rec.command)]
  {
    var k := FindRow(rows, rec.id);
    if k < |rows| then (rows, k)
    else
      var t := rows + [NewRow(rec.id, rec.target, rec.command)];
      assert forall j :: 0 <= j < |rows| ==> t[j] == rows[j];
      (t, k)
  }

  /** QProgressBar.setValue on the default range 0..100: a value outside the
      range leaves the bar as it was. */
  function SetProgress(current: int, value: int): (p: int)
    ensures 0 <= value <= 100 ==> p == value
    ensures !(0 <= value <= 100) ==> p == current
  {
    if 0 <= value <= 100 then value else current
  }

  /** The status chain of newer front-end: stale keeps the icon, then stopped,
      error, finished and started are tried in that order. */
  function ChainStatus(current: Status, rec: JobRecord): Status {
    if rec.stale then current
    else if rec.stopped then Stop
    else if rec.error then Error
    else if rec.finished then Ok
    else if rec.started then Progress
    else Pending
  }

  /** The flags of a record, for the priority table below. */
  datatype Flag = StaleFlag | StoppedFlag | ErrorFlag | FinishedFlag | StartedFlag

  /** The priority order of the flags, highest first. */
  const Priority: seq<Flag> := [StaleFlag, StoppedFlag, ErrorFlag, FinishedFlag, StartedFlag]

  function IsSet(rec: JobRecord, f: Flag): bool {
    match f
    case StaleFlag => rec.stale
    case StoppedFlag => rec.stopped
    case ErrorFlag => rec.error
    case FinishedFlag => rec.finished
    case StartedFlag => rec.started
  }

  /** The first flag of `flags` that `rec` sets. */
  function FirstSet(rec: JobRecord, flags: seq<Flag>): (r: Option<Flag>)
    ensures r.None? <==> forall i :: 0 <= i < |flags| ==> !IsSet(rec, flags[i])
    ensures r.Some? ==> exists i :: (0 <= i < |flags| && flags[i] == r.value && IsSet(rec, r.value)
      && forall j :: 0 <= j < i ==> !IsSet(rec, flags[j]))
    decreases |flags|
  {
    if flags == [] then None
    else if IsSet(rec, flags[0]) then
      Some(flags[0])
    else
      var r := FirstSet(rec, flags[1..]);
      assert forall i :: 1 <= i < |flags| ==> flags[i] == flags[1..][i - 1];
      if r.Some? then
        var i :| 0 <= i < |flags[1..]| && flags[1..][i] == r.value && IsSet(rec, r.value)
          && forall j :: 0 <= j < i ==> !IsSet(rec, flags[1..][j]);
        assert flags[i + 1] == r.value && forall j :: 0 <= j < i + 1 ==> !IsSet(rec, flags[j]);
        r
      else r
  }

  /** The status a priority table assigns: the highest-priority flag that is
      set decides; a stale record keeps the current icon; no flag means PENDING. */
  function TableStatus(current: Status, rec: JobRecord): Status {
    match FirstSet(rec, Priority)
    case None => Pending
    case Some(f) =>
      match f
      case StaleFlag => current
      case StoppedFlag => Stop
      case ErrorFlag => Error
      case FinishedFlag => Ok
      case StartedFlag => Progress
  }

  /** The if/elif chain is exactly the priority table: at most one status per
      record, and a lower flag counts only when every higher one is clear. */
  lemma ChainIsPriorityTable(current: Status, rec: JobRecord)
    ensures ChainStatus(current, rec) == TableStatus(current, rec)
  {
    var r := FirstSet(rec, Priority);
    if r.Some? {
      var i :| 0 <= i < |Priority| && Priority[i] == r.value && IsSet(rec, r.value)
        && forall j :: 0 <= j < i ==> !IsSet(rec, Priority[j]);
      assert forall j :: 0 <= j < i ==> !IsSet(rec, Priority[j]);
      if i == 0 {} else if i == 1 {} else if i == 2 {} else if i == 3 {} else {}
    } else {
      assert forall i :: 0 <= i < |Priority| ==> !IsSet(rec, Priority[i]);
      assert !IsSet(rec, Priority[0]) && !IsSet(rec, Priority[1]) && !IsSet(rec, Priority[2])
        && !IsSet(rec, Priority[3]) && !IsSet(rec, Priority[4]);
    }
  }

  /** Which front-end's status rule is applied after the progress is written. */
  datatype StatusRule =
    | PriorityChain   // the flag chain of the newer front-end
    | CompleteAt100   // the older front-end: OK once the percentage is 100

  function NextStatus(rule: StatusRule, current: Status, rec: JobRecord): Status {
    match rule
    case PriorityChain => ChainStatus(current, rec)
    case CompleteAt100 => if rec.percentage == 100 then Ok else current
  }

  /** The queue table after one record has been reconciled into it: the
      located row gets the new progress and status, every other row is kept. */
  function Apply(rule: StatusRule, rows: seq<QueueRow>, rec: JobRecord): (r: seq<QueueRow>)
    ensures |r| == if HasId(rows, rec.id) then |rows| else |rows| + 1
    ensures FindRow(r, rec.id) == FindRow(rows, rec.id) < |r|
    ensures forall j :: 0 <= j < |rows| && j != FindRow(rows, rec.id) ==> r[j] == rows[j]
    ensures var k := FindRow(rows, rec.id);
      var before := if k < |rows| then rows[k] else NewRow(rec.id, rec.target, rec.command);
      r[k] == before.(progress := SetProgress(before.progress, rec.percentage),
                      status := NextStatus(rule, before.status, rec))
  {
    var (t, k) := Locate(rows, rec);
    var row := t[k].(progress := SetProgress(t[k].progress, rec.percentage),
                     status := NextStatus(rule, t[k].status, rec));
    FindRowSameIds(t, k, row, rec.id);
    t[k := row]
  }

  /** A reconciled record never creates a second row with the same id. */
  lemma ApplyKeepsUnique(rule: StatusRule, rows: seq<QueueRow>, rec: JobRecord)
    requires UniqueIds(rows)
    ensures UniqueIds(Apply(rule, rows, rec))
  {
    var r := Apply(rule, rows, rec);
    var k := FindRow(rows, rec.id);
    forall i, j | 0 <= i < j < |r| ensures r[i].id != r[j].id {
      if i != k && j != k {
        assert j < |rows|;
      } else if i == k {
        assert r[i].id == rec.id;
        if k < |rows| { assert rows[k].id == rec.id; }
      } else {
        assert r[j].id == rec.id && i < k;
      }
    }
  }

  lemma NextStatusIdempotent(rule: StatusRule, current: Status, rec: JobRecord)
    ensures NextStatus(rule, NextStatus(rule, current, rec), rec) == NextStatus(rule, current, rec)
  {
  }

  /** Delivering the same record twice leaves the table as delivering it once. */
  lemma ApplyIdempotent(rule: StatusRule, rows: seq<QueueRow>, rec: JobRecord)
    ensures Apply(rule, Apply(rule, rows, rec), rec) == Apply(rule, rows, rec)
  {
    var r := Apply(rule, rows, rec);
    var r2 := Apply(rule, r, rec);
    var k := FindRow(rows, rec.id);
    assert FindRow(r, rec.id) == k < |r|;
    assert HasId(r, rec.id);
    NextStatusIdempotent(rule, if k < |rows| then rows[k].status else Pending, rec);
    assert r2[k] == r[k];
    assert |r2| == |r|;
    assert forall j :: 0 <= j < |r| ==> r2[j] == r[j];
  }

  /** A `get_queue` list is reconciled record by record, in list order. */
  function ApplyAll(rule: StatusRule, rows: seq<QueueRow>, recs: seq<JobRecord>): seq<QueueRow>
    decreases |recs|
  {
    if recs == [] then rows else ApplyAll(rule, Apply(rule, rows, recs[0]), recs[1..])
  }

  lemma {:induction false} ApplyAllSnoc(rule: StatusRule, rows: seq<QueueRow>, recs: seq<JobRecord>, rec: JobRecord)
    ensures ApplyAll(rule, rows, recs + [rec]) == Apply(rule, ApplyAll(rule, rows, recs), rec)
    decreases |recs|
  {
    if recs == [] {
      assert [rec][1..] == [];
    } else {
      assert (recs + [rec])[0] == recs[0];
      assert (recs + [rec])[1..] == recs[1..] + [rec];
      ApplyAllSnoc(rule, Apply(rule, rows, recs[0]), recs[1..], rec);
    }
  }

  /** Taking one more record of a list extends the fold by one step. */
  lemma ApplyAllPrefix(rule: StatusRule, rows: seq<QueueRow>, recs: seq<JobRecord>, i: nat)
    requires i < |recs|
    ensures ApplyAll(rule, rows, recs[..i + 1]) == Apply(rule, ApplyAll(rule, rows, recs[..i]), recs[i])
  {
    assert recs[..i + 1] == recs[..i] + [recs[i]];
    ApplyAllSnoc(rule, rows, recs[..i], recs[i]);
  }

  lemma {:induction false} ApplyAllKeepsUnique(rule: StatusRule, rows: seq<QueueRow>, recs: seq<JobRecord>)
    requires UniqueIds(rows)
    ensures UniqueIds(ApplyAll(rule, rows, recs))
    decreases |recs|
  {
    if recs != [] {
      ApplyKeepsUnique(rule, rows, recs[0]);
      ApplyAllKeepsUnique(rule, Apply(rule, rows, recs[0]), recs[1..]);
    }
  }

  /** After a batch, the row of the last record's job shows that record:
      its progress (when in range) and, under the priority chain, the status
      the chain gives it unless it is stale; under the older rule, OK when it
      reports 100. Earlier records for the same job leave no trace in these. */
  lemma ApplyAllLastWins(rule: StatusRule, rows: seq<QueueRow>, recs: seq<JobRecord>)
    requires recs != []
    ensures var last := recs[|recs| - 1];
      var t := ApplyAll(rule, rows, recs);
      var k := FindRow(t, last.id);
      && k < |t|
      && (0 <= last.percentage <= 100 ==> t[k].progress == last.percentage)
      && (rule == PriorityChain && !last.stale ==> t[k].status == ChainStatus(Pending, last))
      && (rule == CompleteAt100 && last.percentage == 100 ==> t[k].status == Ok)
  {
    var n := |recs|;
    var last := recs[n - 1];
    assert recs == recs[..n - 1] + [last];
    ApplyAllSnoc(rule, rows, recs[..n - 1], last);
  }

  /** Whether cell (row, col) holds a cell widget (the status icon or the
      progress bar) rather than a text item: update_queue puts items in the
      ID, Process and Disk columns and widgets in the other two. */
  predicate IsWidgetCell(rows: seq<QueueRow>, row: int, col: int) {
    0 <= row < |rows| && 0 <= col < |QueueColumns| && QueueColumns[col] in {"Status", "Progress"}
  }

  /** The table after the ERROR icon has been put on row i. */
  function MarkError(rows: seq<QueueRow>, i: nat): (r: seq<QueueRow>)
    requires i < |rows|
    ensures |r| == |rows| && r[i].status == Error
    ensures r[i].(status := rows[i].status) == rows[i]
    ensures forall j :: 0 <= j < |rows| && j != i ==> r[j] == rows[j]
  {
    rows[i := rows[i].(status := Error)]
  }

  /** Marking a row keeps every id where it was. */
  lemma MarkErrorKeepsIds(rows: seq<QueueRow>, i: nat, id: string)
    requires i < |rows|
    ensures FindRow(MarkError(rows, i), id) == FindRow(rows, id)
    ensures UniqueIds(rows) ==> UniqueIds(MarkError(rows, i))
  {
    FindRowSameIds(rows, i, rows[i].(status := Error), id);
  }

  /** The table after the selected row has been removed. */
  function RemoveRow(rows: seq<QueueRow>, i: nat): (r: seq<QueueRow>)
    requires i < |rows|
    ensures |r| == |rows| - 1
    ensures forall j :: 0 <= j < i ==> r[j] == rows[j]
    ensures forall j :: i <= j < |r| ==> r[j] == rows[j + 1]
  {
    rows[..i] + rows[i + 1..]
  }

  lemma RemoveRowKeepsUnique(rows: seq<QueueRow>, i: nat)
    requires i < |rows| && UniqueIds(rows)
    ensures UniqueIds(RemoveRow(rows, i))
    ensures !HasId(RemoveRow(rows, i), rows[i].id)
  {
    var r := RemoveRow(rows, i);
    forall a, b | 0 <= a < b < |r| ensures r[a].id != r[b].id {
      var a', b' := if a < i then a else a + 1, if b < i then b else b + 1;
      assert r[a] == rows[a'] && r[b] == rows[b'] && a' < b';
    }
    forall j | 0 <= j < |r| ensures r[j].id != rows[i].id {
      if j < i { assert r[j] == rows[j]; } else { assert r[j] == rows[j + 1]; }
    }
  }

  /** The end-to-end example of the protocol: job 42 is created as started
      at 0%, then finishes at 100%. */
  lemma Job42Scenario()
    ensures var started := JobRecord("42", "sda", "queued_badblocks", 0, true, false, false, false, false);
      var done := started.(percentage := 100, finished := true);
      && Apply(PriorityChain, [], started) == [QueueRow("42", "Erase", "sda", Progress, 0)]
      && Apply(PriorityChain, [QueueRow("42", "Erase", "sda", Progress, 0)], done)
         == [QueueRow("42", "Erase", "sda", Ok, 100)]
  {
    var started := JobRecord("42", "sda", "queued_badblocks", 0, true, false, false, false, false);
    var done := started.(percentage := 100, finished := true);
    var one := [QueueRow("42", "Erase", "sda", Progress, 0)];
    assert FindRow([], "42") == 0;
    assert FindRow(one, "42") == 0;
  }
}
