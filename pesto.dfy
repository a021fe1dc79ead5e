/** The older front-end: the queue and disk bookkeeping of its window class
    Ui and its latest_conf. */
module Pesto {
  import opened Text
  import opened Jobs
  import opened Disks
  import opened Config
  import opened Events

  class Ui {
    /** sys.platform == 'win32' */
    const win32: bool
    var queueTable: seq<QueueRow>
    var diskTable: seq<DiskRow>
    var remoteMode: bool
    var host: Option<string>
    var port: Port

    constructor (win32: bool)
      ensures this.win32 == win32
      ensures queueTable == [] && diskTable == []
      ensures !remoteMode && host == None && port == NoPort
    {
      this.win32 := win32;
      queueTable, diskTable := [], [];
      remoteMode, host, port := false, None, NoPort;
    }

    /** update_queue: insert a row at index rowCount() and fill its cells
        column by column. */
    method UpdateQueue(id: string, drive: string, mode: string)
      modifies this`queueTable
      ensures queueTable == old(queueTable) + [NewRow(id, drive, mode)]
    {
      var row := |queueTable|;
      queueTable := queueTable + [QueueRow("", "", "", Pending, 0)];  // insertRow(row)
      var idText, process, disk := "", "", "";
      var status: Option<Status> := None;
      var progress: Option<int> := None;
      for idx := 0 to |QueueColumns|
        invariant |queueTable| == row + 1
        invariant idx > 0 ==> idText == id
        invariant idx > 1 ==> process == ProcessLabel(mode)
        invariant idx > 2 ==> disk == drive
        invariant idx > 3 ==> status == Some(Pending)
        invariant idx > 4 ==> progress == Some(0)
      {
        var entry := QueueColumns[idx];
        if entry == "ID" {
          idText := id;
        } else if entry == "Process" {
          process := ProcessLabel(mode);
        } else if entry == "Disk" {
          disk := drive;
        } else if entry == "Status" {
          // rowCount() is at least 1 after insertRow, so the PENDING icon is
          // always chosen (the other branch would raise)
          if |queueTable| != 0 {
            status := Some(Pending);
          }
        } else if entry == "Progress" {
          progress := Some(0);
        }
      }
      queueTable := queueTable[row := QueueRow(idText, process, disk, status.value, progress.value)];
    }

    /** The search of the queue_status branch: the rows are scanned for the
        record's id, and a scan that runs past the last row appends one with
        update_queue. */
    method FindOrAppend(rec: JobRecord) returns (row: nat)
      modifies this`queueTable
      ensures (queueTable, row) == Locate(old(queueTable), rec)
    {
      row := 0;
      var rows := |queueTable|;
      // `range(rows + 1)` is fixed when the loop starts; the source's
      // `rows += 1` after update_queue does not change it
      var i := 0;
      while i < rows + 1
        invariant 0 <= i <= rows + 1 && rows == |old(queueTable)|
        invariant forall j :: 0 <= j < i && j < rows ==> old(queueTable)[j].id != rec.id
        invariant i <= rows ==> queueTable == old(queueTable)
        invariant i == rows + 1 ==>
          queueTable == old(queueTable) + [NewRow(rec.id, rec.target, rec.command)] && row == rows
      {
        row := i;
        // item(row, 0) is None past the last row
        var item := if row < |queueTable| then Some(queueTable[row].id) else None;
        if item.Some? && item.value == rec.id {
          break;
        } else if item.None? {
          UpdateQueue(rec.id, rec.target, rec.command);
        }
        i := i + 1;
      }
      assert row == FindRow(old(queueTable), rec.id);
    }

    /** The queue_status branch on one record: the search, the progress bar,
        and the OK icon when the record reports 100. */
    method ReconcileRecord(rec: JobRecord)
      modifies this`queueTable
      ensures queueTable == Apply(CompleteAt100, old(queueTable), rec)
    {
      var row := FindOrAppend(rec);
      ghost var located := queueTable;
      var bar := SetProgress(queueTable[row].progress, rec.percentage);
      queueTable := queueTable[row := queueTable[row].(progress := bar)];
      if rec.percentage == 100 {
        queueTable := queueTable[row := queueTable[row].(status := Ok)];
      }
      assert queueTable == located[row := located[row].(progress := bar,
        status := NextStatus(CompleteAt100, located[row].status, rec))];
    }

    /** The get_disks branch: an empty list clears the table; otherwise each
        record that is not the boot device becomes the next row, growing the
        table with setRowCount. */
    method RebuildDisks(drives: seq<DiskRecord>)
      modifies this`diskTable
      ensures diskTable == DisksAsWritten(old(diskTable), drives, win32)
    {
      if |drives| <= 0 {
        diskTable := [];  // clear() and setRowCount(0)
        return;
      }
      var rows := 0;
      for i := 0 to |drives|
        invariant rows == |Visible(drives[..i])|
        invariant rows == 0 ==> diskTable == old(diskTable)
        invariant rows > 0 ==> diskTable == RenderAll(Visible(drives[..i]), win32)
      {
        var d := drives[i];
        VisibleConcat(drives[..i], [d]);
        assert drives[..i + 1] == drives[..i] + [d];
        assert [d][1..] == [];
        if Contains(d.mountpoint, "[BOOT]") {
          continue;
        }
        rows := rows + 1;
        diskTable := SetRowCount(diskTable, rows);
        diskTable := diskTable[rows - 1 := diskTable[rows - 1].(drive := DriveText(d, win32))];
        diskTable := diskTable[rows - 1 := diskTable[rows - 1].(size := SizeText(d.size))];
      }
      assert drives[..|drives|] == drives;
    }

    /** gui_update for the queue_status and get_disks events; the SMART
        output branch touches neither table. */
    method GuiUpdate(cmd: string, payload: Payload)
      modifies this`queueTable, this`diskTable
      ensures var rec := PestoQueueRecord(cmd, payload);
        queueTable == if rec.Some? then Apply(CompleteAt100, old(queueTable), rec.value) else old(queueTable)
      ensures var ds := DiskBatch(payload);
        diskTable == if cmd == "get_disks" && ds.Some? then DisksAsWritten(old(diskTable), ds.value, win32)
                     else old(diskTable)
    {
      if cmd == "queue_status" {
        var rec := PestoQueueRecord(cmd, payload);
        if rec.Some? {
          ReconcileRecord(rec.value);
        }
      } else if cmd == "get_disks" {
        var ds := DiskBatch(payload);
        if ds.Some? {
          RebuildDisks(ds.value);
        }
      }
    }

    /** queue_stop as written: it reads the id through cellWidget(row, 0),
        but column 0 holds a text item, never a cell widget, so the lookup
        gives None and reading its text raises before the dialog, whatever
        row is selected. Nothing changes. */
    method QueueStop(current: int, confirmed: bool) returns (raised: bool)
      ensures raised
    {
      raised := !IsWidgetCell(queueTable, current, 0);
    }

    /** queue_remove as written: the same lookup of the id raises first. */
    method QueueRemove(current: int, confirmed: bool) returns (raised: bool)
      ensures raised
    {
      raised := !IsWidgetCell(queueTable, current, 0);
    }

    /** queue_stop as evidently intended, reading the id through item(row, 0):
        on confirmation only the selected row gets the ERROR icon. */
    method QueueStopIntended(current: int, confirmed: bool) returns (raised: bool)
      modifies this`queueTable
      ensures raised <==> !(0 <= current < |old(queueTable)|)
      ensures !raised && confirmed ==> queueTable == MarkError(old(queueTable), current)
      ensures raised || !confirmed ==> queueTable == old(queueTable)
    {
      if !(0 <= current < |queueTable|) {
        return true;
      }
      raised := false;
      if confirmed {
        // cellWidget(row, 3) is the status icon
        assert IsWidgetCell(queueTable, current, 3);
        queueTable := queueTable[current := queueTable[current].(status := Error)];
      }
    }

    /** queue_remove as evidently intended: on confirmation only the selected
        row is removed. */
    method QueueRemoveIntended(current: int, confirmed: bool) returns (raised: bool)
      modifies this`queueTable
      ensures raised <==> !(0 <= current < |old(queueTable)|)
      ensures !raised && confirmed ==> queueTable == RemoveRow(old(queueTable), current)
      ensures raised || !confirmed ==> queueTable == old(queueTable)
    {
      if !(0 <= current < |queueTable|) {
        return true;
      }
      raised := false;
      if confirmed {
        queueTable := RemoveRow(queueTable, current);
      }
    }

    /** latest_conf on the stored settings: the port is the stored text as is. */
    method LatestConf(stored: Settings)
      modifies this`remoteMode, this`host, this`port
      ensures remoteMode == PestoConf(stored).remoteMode
      ensures host == PestoConf(stored).host
      ensures port == PestoConf(stored).port
    {
      if stored.remoteMode == Some("False") {
        remoteMode, host, port := false, Some(LocalHost), Number(LocalPort);
      } else {
        remoteMode := true;
        host := stored.remoteIp;
        port := match stored.remotePort case None => NoPort case Some(text) => Raw(text);
      }
    }
  }
}
