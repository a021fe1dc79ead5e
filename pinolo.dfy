/** The newer front-end: the queue and disk bookkeeping of its window class
    Ui, the commands its buttons send, and the running flag of LocalServer. */
module Pinolo {
  import opened Text
  import opened Jobs
  import opened Disks
  import opened Commands
  import opened Config
  import opened Events

  class Ui {
    /** sys.platform == 'win32' */
    const win32: bool
    var queueTable: seq<QueueRow>
    var diskTable: seq<DiskRow>
    /** Every text handed to client.send, oldest first. */
    var sent: seq<string>
    var remoteMode: bool
    var host: Option<string>
    var port: Port

    constructor (win32: bool)
      ensures this.win32 == win32
      ensures queueTable == [] && diskTable == [] && sent == []
      ensures !remoteMode && host == None && port == NoPort
    {
      this.win32 := win32;
      queueTable, diskTable, sent := [], [], [];
      remoteMode, host, port := false, None, NoPort;
    }

    /** update_queue: insert a row at index rowCount() and fill its cells
        column by column. */
    method UpdateQueue(pid: string, drive: string, mode: string)
      modifies this`queueTable
      ensures queueTable == old(queueTable) + [NewRow(pid, drive, mode)]
    {
      var row := |queueTable|;
      queueTable := queueTable + [QueueRow("", "", "", Pending, 0)];  // insertRow(row)
      var id, process, disk := "", "", "";
      var status: Option<Status> := None;
      var progress: Option<int> := None;
      for idx := 0 to |QueueColumns|
        invariant |queueTable| == row + 1
        invariant idx > 0 ==> id == pid
        invariant idx > 1 ==> process == ProcessLabel(mode)
        invariant idx > 2 ==> disk == drive
        invariant idx > 3 ==> status == Some(Pending)
        invariant idx > 4 ==> progress == Some(0)
      {
        var entry := QueueColumns[idx];
        if entry == "ID" {
          id := pid;
        } else if entry == "Process" {
          process := ProcessLabel(mode);
        } else if entry == "Disk" {
          disk := drive;
        } else if entry == "Status" {
          // rowCount() is at least 1 after insertRow, so the PENDING icon is
          // always chosen (the other branch would raise)
          if |queueTable| != 0 {
            status := Some(Pending);
          }
        } else if entry == "Progress" {
          progress := Some(0);
        }
      }
      queueTable := queueTable[row := QueueRow(id, process, disk, status.value, progress.value)];
    }

    /** status_cell.setPixmap(...) on one row. */
    method SetStatus(row: nat, s: Status)
      requires row < |queueTable|
      modifies this`queueTable
      ensures queueTable == old(queueTable)[row := old(queueTable)[row].(status := s)]
    {
      queueTable := queueTable[row := queueTable[row].(status := s)];
    }

    /** The search of one pass of the queue branch's `for param in params`:
        the rows are scanned for the record's id, and a scan that runs past
        the last row appends one with update_queue. */
    method FindOrAppend(rec: JobRecord) returns (row: nat)
      modifies this`queueTable
      ensures (queueTable, row) == Locate(old(queueTable), rec)
    {
      row := 0;
      var rows := |queueTable|;
      // `range(rows + 1)` is fixed when the loop starts; the source's
      // `rows += 1` after update_queue does not change it
      var i := 0;
      while i < rows + 1
        invariant 0 <= i <= rows + 1 && rows == |old(queueTable)|
        invariant forall j :: 0 <= j < i && j < rows ==> old(queueTable)[j].id != rec.id
        invariant i <= rows ==> queueTable == old(queueTable)
        invariant i == rows + 1 ==>
          queueTable == old(queueTable) + [NewRow(rec.id, rec.target, rec.command)] && row == rows
      {
        row := i;
        // item(row, 0) is None past the last row
        var item := if row < |queueTable| then Some(queueTable[row].id) else None;
        if item.Some? && item.value == rec.id {
          break;
        } else if item.None? {
          UpdateQueue(rec.id, rec.target, rec.command);
        }
        i := i + 1;
      }
      assert row == FindRow(old(queueTable), rec.id);
    }

    /** One pass of the queue branch's `for param in params`: the search,
        the progress bar, then the status chain. */
    method ReconcileRecord(rec: JobRecord)
      modifies this`queueTable
      ensures queueTable == Apply(PriorityChain, old(queueTable), rec)
    {
      var row := FindOrAppend(rec);
      ghost var located := queueTable;
      var bar := SetProgress(queueTable[row].progress, rec.percentage);
      queueTable := queueTable[row := queueTable[row].(progress := bar)];
      if rec.stale {
        // the status icon is left as it is
      } else if rec.stopped {
        SetStatus(row, Stop);
      } else if rec.error {
        SetStatus(row, Error);
      } else if rec.finished {
        SetStatus(row, Ok);
      } else if rec.started {
        SetStatus(row, Progress);
      } else {
        SetStatus(row, Pending);
      }
      assert queueTable == located[row := located[row].(progress := bar,
        status := NextStatus(PriorityChain, located[row].status, rec))];
    }

    /** The loop over the records of one queue event, in list order. */
    method ReconcileBatch(records: seq<JobRecord>)
      modifies this`queueTable
      ensures queueTable == ApplyAll(PriorityChain, old(queueTable), records)
    {
      for i := 0 to |records|
        invariant queueTable == ApplyAll(PriorityChain, old(queueTable), records[..i])
      {
        ApplyAllPrefix(PriorityChain, old(queueTable), records, i);
        ReconcileRecord(records[i]);
      }
      assert records[..|records|] == records;
    }

    /** The get_disks branch: an empty list clears the table; otherwise each
        record that is not the boot device becomes the next row, growing the
        table with setRowCount. */
    method RebuildDisks(drives: seq<DiskRecord>)
      modifies this`diskTable
      ensures diskTable == DisksAsWritten(old(diskTable), drives, win32)
    {
      if |drives| <= 0 {
        diskTable := [];  // clear() and setRowCount(0)
        return;
      }
      var rows := 0;
      for i := 0 to |drives|
        invariant rows == |Visible(drives[..i])|
        invariant rows == 0 ==> diskTable == old(diskTable)
        invariant rows > 0 ==> diskTable == RenderAll(Visible(drives[..i]), win32)
      {
        var d := drives[i];
        VisibleConcat(drives[..i], [d]);
        assert drives[..i + 1] == drives[..i] + [d];
        assert [d][1..] == [];
        if Contains(d.mountpoint, "[BOOT]") {
          continue;
        }
        rows := rows + 1;
        diskTable := SetRowCount(diskTable, rows);
        diskTable := diskTable[rows - 1 := diskTable[rows - 1].(drive := DriveText(d, win32))];
        diskTable := diskTable[rows - 1 := diskTable[rows - 1].(size := SizeText(d.size))];
      }
      assert drives[..|drives|] == drives;
    }

    /** The get_disks branch as evidently intended: the table is emptied
        first, so it ends up showing exactly the non-boot records even when
        the list holds nothing else. */
    method RebuildDisksIntended(drives: seq<DiskRecord>)
      modifies this`diskTable
      ensures diskTable == DisksIntended(drives, win32)
    {
      diskTable := SetRowCount(diskTable, 0);
      var rows := 0;
      for i := 0 to |drives|
        invariant rows == |Visible(drives[..i])|
        invariant diskTable == RenderAll(Visible(drives[..i]), win32)
      {
        var d := drives[i];
        VisibleConcat(drives[..i], [d]);
        assert drives[..i + 1] == drives[..i] + [d];
        assert [d][1..] == [];
        if Contains(d.mountpoint, "[BOOT]") {
          continue;
        }
        rows := rows + 1;
        diskTable := SetRowCount(diskTable, rows);
        diskTable := diskTable[rows - 1 := diskTable[rows - 1].(drive := DriveText(d, win32))];
        diskTable := diskTable[rows - 1 := diskTable[rows - 1].(size := SizeText(d.size))];
      }
      assert drives[..|drives|] == drives;
    }

    /** gui_update for the queue and disk events; other tags (SMART output,
        connection messages, images) touch neither table. */
    method GuiUpdate(cmd: string, payload: Payload)
      modifies this`queueTable, this`diskTable
      ensures var batch := PinoloQueueBatch(cmd, payload);
        queueTable == if batch.Some? then ApplyAll(PriorityChain, old(queueTable), batch.value) else old(queueTable)
      ensures var ds := DiskBatch(payload);
        diskTable == if cmd == "get_disks" && ds.Some? then DisksAsWritten(old(diskTable), ds.value, win32)
                     else old(diskTable)
    {
      if cmd == "queue_status" || cmd == "get_queue" {
        var batch := PinoloQueueBatch(cmd, payload);
        if batch.Some? {
          ReconcileBatch(batch.value);
        }
      } else if cmd == "get_disks" {
        var ds := DiskBatch(payload);
        if ds.Some? {
          RebuildDisks(ds.value);
        }
      }
    }

    /** queue_stop on the selected row `current` (-1 when none): on
        confirmation the stop request for that row's id is sent; the table is
        left to the next status event. */
    method QueueStop(current: int, confirmed: bool) returns (raised: bool)
      modifies this`sent
      ensures raised <==> !(0 <= current < |queueTable|)
      ensures !raised && confirmed ==> sent == old(sent) + ["stop " + queueTable[current].id]
      ensures raised || !confirmed ==> sent == old(sent)
    {
      if !(0 <= current < |queueTable|) {
        return true;
      }
      raised := false;
      var pid := queueTable[current].id;
      if confirmed {
        sent := sent + ["stop " + pid];
      }
    }

    /** queue_remove on the selected row `current` (-1 when none), where
        `confirmed` is the operator's answer to the dialog. Reading the ID cell
        of a row that does not exist raises before the dialog. */
    method QueueRemove(current: int, confirmed: bool) returns (raised: bool)
      modifies this`queueTable, this`sent
      ensures raised <==> !(0 <= current < |old(queueTable)|)
      ensures !raised && confirmed ==>
        sent == old(sent) + ["remove"] && queueTable == RemoveRow(old(queueTable), current)
      ensures raised || !confirmed ==> sent == old(sent) && queueTable == old(queueTable)
    {
      if !(0 <= current < |queueTable|) {
        return true;
      }
      raised := false;
      if confirmed {
        sent := sent + ["remove"];
        queueTable := RemoveRow(queueTable, current);
      }
    }

    /** queue_clear: the table is emptied at once and the bulk removal sent. */
    method QueueClear()
      modifies this`queueTable, this`sent
      ensures queueTable == [] && sent == old(sent) + ["remove all"]
    {
      queueTable := [];
      sent := sent + ["remove all"];
    }

    /** erase: asks for confirmation unless run as part of the standard procedure. */
    method Erase(current: int, std: bool, confirmed: bool)
      modifies this`sent
      ensures var drive := SelectedDrive(diskTable, current);
        sent == old(sent) + if drive.Some? && (std || confirmed) then [DriveCommand(EraseVerb, drive.value)] else []
    {
      var drive := SelectedDrive(diskTable, current);
      if drive.None? {
        return;  // "There are no selected drives."
      }
      if !std && !confirmed {
        return;
      }
      sent := sent + [DriveCommand(EraseVerb, drive.value)];
    }

    /** smart: no confirmation. */
    method Smart(current: int)
      modifies this`sent
      ensures var drive := SelectedDrive(diskTable, current);
        sent == old(sent) + if drive.Some? then [DriveCommand(SmartVerb, drive.value)] else []
    {
      var drive := SelectedDrive(diskTable, current);
      if drive.None? {
        return;
      }
      sent := sent + [DriveCommand(SmartVerb, drive.value)];
    }

    /** cannolo: asks for confirmation unless run as part of the standard procedure. */
    method Cannolo(current: int, std: bool, confirmed: bool)
      modifies this`sent
      ensures var drive := SelectedDrive(diskTable, current);
        sent == old(sent) + if drive.Some? && (std || confirmed) then [DriveCommand(CannoloVerb, drive.value)] else []
    {
      var drive := SelectedDrive(diskTable, current);
      if drive.None? {
        return;
      }
      if !std && !confirmed {
        return;
      }
      sent := sent + [DriveCommand(CannoloVerb, drive.value)];
    }

    /** sleep: no confirmation. */
    method Sleep(current: int)
      modifies this`sent
      ensures var drive := SelectedDrive(diskTable, current);
        sent == old(sent) + if drive.Some? then [DriveCommand(SleepVerb, drive.value)] else []
    {
      var drive := SelectedDrive(diskTable, current);
      if drive.None? {
        return;
      }
      sent := sent + [DriveCommand(SleepVerb, drive.value)];
    }

    /** latest_conf on the stored settings; `raised` says that the TypeError
        of `int(None)` escaped, after remoteMode and host were assigned. */
    method LatestConf(stored: Settings) returns (raised: bool)
      modifies this`remoteMode, this`host, this`port
      ensures remoteMode == PinoloConf(stored, old(port)).0.remoteMode
      ensures host == PinoloConf(stored, old(port)).0.host
      ensures port == PinoloConf(stored, old(port)).0.port
      ensures raised == PinoloConf(stored, old(port)).1
    {
      if stored.remoteMode == Some("False") {
        remoteMode, host, port := false, Some(LocalHost), Number(LocalPort);
        raised := false;
      } else {
        remoteMode := true;
        host := stored.remoteIp;
        match stored.remotePort {
          case None =>
            raised := true;
          case Some(text) =>
            raised := false;
            var n := ParseInt(text);
            port := if n.Some? then Number(n.value) else NoPort;  // except ValueError
        }
      }
    }
  }

  /** The line of the worker's diagnostic output that signals readiness. */
  const ReadyMarker := "Listening on"

  /** The local worker process. The subprocess itself is abstract: ghost
      counters of spawned and terminated processes stand for it. */
  class LocalServer {
    var running: bool
    /** Everything put on server_queue, oldest first. */
    var serverQueue: seq<string>
    ghost var spawned: nat
    ghost var terminated: nat

    /** A subprocess is alive exactly when the flag is set, and never two. */
    ghost predicate Valid()
      reads this
    {
      spawned == terminated + (if running then 1 else 0)
    }

    constructor ()
      ensures Valid() && !running && serverQueue == []
      ensures spawned == 0 && terminated == 0
    {
      running := false;
      serverQueue := [];
      spawned, terminated := 0, 0;
    }

    /** load_server, where `stderr` is what the subprocess writes. When not
        running it spawns the worker and reads lines until one holds the
        readiness marker (the source spins for ever otherwise, hence the
        requires); SERVER_READY is put either way. */
    method LoadServer(stderr: seq<string>) returns (linesRead: nat)
      requires Valid()
      requires !running ==> exists i :: 0 <= i < |stderr| && Contains(stderr[i], ReadyMarker)
      modifies this
      ensures Valid() && running
      ensures serverQueue == old(serverQueue) + ["SERVER_READY"]
      ensures terminated == old(terminated)
      ensures old(running) ==> spawned == old(spawned) && linesRead == 0
      ensures !old(running) ==>
        && spawned == old(spawned) + 1
        && 0 < linesRead <= |stderr| && Contains(stderr[linesRead - 1], ReadyMarker)
        && forall j :: 0 <= j < linesRead - 1 ==> !Contains(stderr[j], ReadyMarker)
    {
      linesRead := 0;
      if !running {
        spawned := spawned + 1;  // subprocess.Popen
        running := true;
        ghost var w :| 0 <= w < |stderr| && Contains(stderr[w], ReadyMarker);
        linesRead := 1;
        while !Contains(stderr[linesRead - 1], ReadyMarker)
          invariant 1 <= linesRead <= w + 1
          invariant forall j :: 0 <= j < linesRead - 1 ==> !Contains(stderr[j], ReadyMarker)
          decreases w + 1 - linesRead
        {
          linesRead := linesRead + 1;
        }
        serverQueue := serverQueue + ["SERVER_READY"];
      } else {
        serverQueue := serverQueue + ["SERVER_READY"];
      }
    }

    /** stop: terminates only a running worker; the flag is cleared either way. */
    method Stop()
      requires Valid()
      modifies this
      ensures Valid() && !running
      ensures terminated == old(terminated) + (if old(running) then 1 else 0)
      ensures spawned == old(spawned) && serverQueue == old(serverQueue)
    {
      if running {
        terminated := terminated + 1;  // server.terminate()
      }
      running := false;
    }
  }

  /** What a caller can rely on: loading twice spawns one worker and reports
      readiness twice; stopping twice terminates it once. */
  method ServerLifecycle() {
    var server := new LocalServer();
    var out := ["Starting\n", "Listening on 127.0.0.1:1030\n"];
    assert OccursAt(out[1], ReadyMarker, 0);
    var n := server.LoadServer(out);
    assert n == 2;
    n := server.LoadServer([]);
    server.Stop();
    server.Stop();
    assert server.spawned == 1 && server.terminated == 1;
    assert server.serverQueue == ["SERVER_READY", "SERVER_READY"];
  }
}
