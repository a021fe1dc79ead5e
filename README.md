# Disk-management front-ends: queue and disk tables

This project models the bookkeeping core of the two desktop front-ends of a
disk-management tool. `pinolo.py` is the newer front-end and `pesto.py` the
older one. Both talk to a worker process that erases, checks and images
disks.

- **Queue table.** A front-end receives job records as `queue_status`
  events (one record) or `get_queue` events (a list). For each record it
  looks for the row that shows the record's id. When there is none, it
  appends a row with `update_queue`. It then overwrites the row's progress
  bar and recomputes its status icon:
  - the newer front-end uses a flag chain: stale, then stopped, error,
    finished, started, otherwise pending;
  - the older one uses "OK at 100 %".
- **Operator actions.** The queue actions stop, remove and clear change the
  table and the commands sent to the worker.
- **Disk table.** A `get_disks` event rebuilds the table from the records
  that are not the boot device.
- **Drive commands.** The erase / SMART / image / sleep buttons send
  `<verb> <drive>`. The drive is the selected Drive cell passed through
  `lstrip("Disk ")`.
- **Connection settings.** `latest_conf` turns the stored settings into the
  connection settings.
- **Local worker.** `LocalServer.load_server` and `stop` keep a `running`
  flag around the local worker subprocess.

Module layout:

- `text.dfy` (`Text`): Python's substring test `in`, `str(n)` for naturals,
  and `int(...)` on text.
- `jobs.dfy` (`Jobs`): queue rows and find-or-create (`Locate`). It also
  holds the two status rules, one record reconciled (`Apply`) and a list of
  them (`ApplyAll`), plus stop / remove on a row.
- `disks.dfy` (`Disks`): the boot-device filter, the cell texts,
  `setRowCount`, and the disk table as written and as intended.
- `commands.dfy` (`Commands`): `lstrip("Disk ")`, the selected drive, and
  the command text with its read-back.
- `config.dfy` (`Config`): `latest_conf` of both front-ends.
- `events.dfy` (`Events`): what each `gui_update` branch reads from a
  decoded payload.
- `pinolo.dfy` (`Pinolo`): the `Ui` class of the newer front-end (its
  tables, sent commands and connection settings as fields) and the
  `LocalServer` class.
- `pesto.dfy` (`Pesto`): the `Ui` class of the older front-end.

The `Ui` methods are proved against the functions of the shared modules.
The properties are proved about those functions as lemmas:
- idempotence of a repeated record;
- unique ids;
- last record wins;
- the status chain equals a priority table;
- the command round trip.

### Where the documented behaviour and the code differ

The model follows the code in each case.

- **Disk list replacement.** The disk list is documented as replaced on
  every `get_disks` event. A non-empty list of boot devices alone leaves the
  old rows in place (see Findings).
- **Progress overwrite.** The progress is documented as always overwritten.
  A `QProgressBar` on its default range 0..100 ignores values outside it, so
  those leave the bar unchanged (`Jobs.SetProgress`).
- **Missing operation kind.** A missing operation kind is documented as
  defaulting to "Unknown". The code reads `param["command"]` only when it
  appends a row (pinolo.py:642-643, pesto.py:515-516), so it raises when
  the record of an unseen id lacks the key. Only a present but unrecognised
  command gets "Unknown" (`Jobs.ProcessLabel`).
- **Unparsable port.** The port is documented as None when the stored
  port does not parse. In the newer front-end that holds only for stored
  text that `int()` rejects: when no port is stored at all, as on a first
  run, `int(None)` raises a TypeError that `except ValueError` does not
  catch (pinolo.py:298-303), and it escapes `latest_conf`. The second
  component of `Config.PinoloConf` and the `raised` result of
  `Pinolo.Ui.LatestConf` say so.
- **Remove.** "remove" is documented as taking effect only once the worker
  reports. The newer front-end removes the selected row at once
  (pinolo.py:338-339).

## Model

| member | source | states |
|---|---|---|
| Text.Contains | pinolo.py:672 | Python's `t in s` for strings: true exactly when `t` occurs in `s` at some index |
| Text.NatToString | pinolo.py:680 | `str(n)` of a natural is a non-empty digit string without a leading zero |
| Text.NatToStringValue | pinolo.py:680 | the digits of `str(n)` denote `n` |
| Text.ParseInt | pinolo.py:301 | `int(text)` succeeds exactly on one or more digits with an optional leading sign, and gives their decimal value, negated after a minus |
| Text.ParseIntSigned | pinolo.py:301 | a bare sign does not parse, "-5" gives -5 and "+1030" gives 1030 |
| Text.ParseNatToString | pinolo.py:301 | parsing the decimal text of any natural gives back that natural |
| Jobs.ProcessLabel | pinolo.py:496-504 | the Process text is Erase, Smart check or Cannolo exactly for their commands, and Unknown exactly for any other command |
| Jobs.NewRow | pinolo.py:487-527 | definition, no contract: the row update_queue appends, with the id, the Process text of the command, the drive, the PENDING icon and progress 0 |
| Jobs.FindRow | pinolo.py:637-643 | the scan's stopping row is the first row showing the id, or one past the last row exactly when no row shows it |
| Jobs.FindRowSameIds | pinolo.py:637-643 | rewriting a row without changing its id moves no search result |
| Jobs.Locate | pinolo.py:634-644 | after the search the found row shows the id; the table is unchanged when the id was present and has one new pending row at the end when it was not |
| Jobs.SetProgress | pinolo.py:647 | `setValue` takes a value in 0..100 and ignores any other |
| Jobs.ChainStatus | pinolo.py:648-660 | definition, no contract: the current icon for a stale record, otherwise STOP, ERROR, OK or PROGRESS for the first of stopped, error, finished, started that is set, otherwise PENDING |
| Jobs.FirstSet | pinolo.py:648-660 | the first flag of a priority list that a record sets, or none exactly when it sets none |
| Jobs.ChainIsPriorityTable | pinolo.py:648-660 | the if/elif chain is the priority table stale > stopped > error > finished > started > pending, so each record gets exactly one status |
| Jobs.NextStatus | pinolo.py:648-660 | definition, no contract: the flag chain for the newer front-end; for the older one (pesto.py:521-523) OK when the percentage is 100, otherwise the current icon |
| Jobs.Apply | pinolo.py:634-660 | reconciling one record adds a row only for a new id, changes only that record's row, and gives it the record's progress and the rule's status |
| Jobs.ApplyKeepsUnique | pinolo.py:634-644 | reconciliation never creates a second row with the same id |
| Jobs.NextStatusIdempotent | pinolo.py:648-660 | applying a status rule twice with the same record gives the same icon as once |
| Jobs.ApplyIdempotent | pinolo.py:634-660 | delivering the same record twice leaves the same table as delivering it once |
| Jobs.ApplyAll | pinolo.py:633 | definition, no contract: the records of a list reconciled into the table one after the other, first record first |
| Jobs.ApplyAllSnoc | pinolo.py:633 | a list of records is reconciled one at a time, in list order |
| Jobs.ApplyAllPrefix | pinolo.py:633 | each further record of the list extends the result by one reconciliation step |
| Jobs.ApplyAllKeepsUnique | pinolo.py:633-644 | a whole list of records keeps the row ids unique |
| Jobs.ApplyAllLastWins | pinolo.py:633-660 | after a list, the last record's job has a row showing that record's progress (when in range) and status, whatever came before |
| Jobs.IsWidgetCell | pinolo.py:520-527 | definition, no contract: a cell holds a widget exactly when its row exists and its column is Status or Progress; ID, Process and Disk hold text items |
| Jobs.MarkError | pesto.py:300-302 | putting the ERROR icon on a row changes that row's status only and no other row |
| Jobs.MarkErrorKeepsIds | pesto.py:300-302 | marking a row moves no id and keeps ids unique |
| Jobs.RemoveRow | pinolo.py:339 | `removeRow` drops exactly the selected row and shifts the later ones up |
| Jobs.RemoveRowKeepsUnique | pinolo.py:339 | removal keeps ids unique and the removed id is no longer shown |
| Jobs.Job42Scenario | pinolo.py:633-660 | job 42 is created as started at 0 % by its first record and becomes OK at 100 % after its finished record |
| Disks.IsBoot | pinolo.py:672-673 | definition, no contract: a record is the boot device when its mount point contains "[BOOT]" |
| Disks.Visible | pinolo.py:672-673 | definition, no contract: the records that are not the boot device, in input order |
| Disks.VisibleConcat | pinolo.py:670-673 | the boot-device filter distributes over concatenation in order |
| Disks.VisibleMembers | pinolo.py:670-673 | a record is shown exactly when it is in the list and is not the boot device; nothing is shown exactly when every record is the boot device |
| Disks.SizeText | pinolo.py:680 | definition, no contract: the size in whole gigabytes, truncated, as decimal text followed by " GB" |
| Disks.DriveText | pinolo.py:676-679 | definition, no contract: the path, with "Disk " in front on Windows |
| Disks.SizeTextReadsBack | pinolo.py:680 | the Dimension cell ends in " GB" and its number reads back as the size in whole gigabytes |
| Disks.RenderAll | pinolo.py:676-680 | row i shows record i |
| Disks.SetRowCount | pinolo.py:675 | `setRowCount(n)` leaves n rows and keeps the first ones |
| Disks.DisksAsWritten | pinolo.py:662-680 | definition, no contract: [] for an empty list, the old table when every record is the boot device, otherwise the rendered non-boot records |
| Disks.DisksIntended | pinolo.py:662-680 | the intended disk table shows exactly the non-boot records, in order |
| Disks.DisksIntendedConcat | pinolo.py:662-680 | the intended disk table distributes over concatenation, and one record gives a row exactly when it is not the boot device |
| Disks.AsWrittenAgreesUnlessAllBoot | pinolo.py:662-680 | the table the code builds equals the intended one exactly when the list is empty, the table was empty, or some record is not the boot device |
| Disks.AllBootKeepsOldRows | pinolo.py:662-680 | a list holding only the boot device leaves a previously shown disk in the table |
| Disks.BootDiskHidden | pinolo.py:670-680 | a terabyte disk and a boot device give one row, "/dev/sda" with "1000 GB" |
| Commands.LstripDisk | pinolo.py:378 | `lstrip("Disk ")` removes the longest leading run of the characters D, i, s, k and space |
| Commands.LstripCharacterized | pinolo.py:378 | those three properties determine the stripped text |
| Commands.LstripIdempotent | pinolo.py:378 | stripping twice is stripping once |
| Commands.LstripRecoversPath | pinolo.py:677 | a Windows Drive cell "Disk " + path strips back to the path when the path does not start with a stripped character |
| Commands.LstripOverStrips | pinolo.py:378 | "Disk sda" strips to "da", not "sda" |
| Commands.SelectedDrive | pinolo.py:372-378 | there is a drive exactly when the selected row exists, and it is that row's Drive cell stripped |
| Commands.DriveCommand | pinolo.py:383 | definition, no contract: the verb, one space and the drive |
| Commands.SplitCommand | pinolo.py:383 | reading a command back gives a verb without spaces and the rest of the text |
| Commands.DriveCommandRoundTrip | pinolo.py:383 | a sent drive command reads back as its verb and its drive |
| Commands.SelectedDriveIsPath | pinolo.py:376-378 | the drive a command names is the selected record's path on either platform |
| Config.PinoloConf | pinolo.py:291-303 | stored mode 'False' gives local mode, 127.0.0.1 and 1030; otherwise remote mode with the stored host, the parsed port or None when it does not parse, and an escaping error exactly when no port is stored |
| Config.PestoConf | pesto.py:250-263 | the same local fallback; otherwise remote mode with the stored host and the stored port text, None exactly when none is stored |
| Config.ConfsAgree | pinolo.py:291-303 | for a port stored as digits, the two front-ends agree except that the newer one holds the number |
| Events.PinoloQueueBatch | pinolo.py:630-633 | `queue_status` wraps one record into a list and `get_queue` takes the list, an empty array, object or text giving no records; other shapes and tags give nothing |
| Events.PestoQueueRecord | pesto.py:506-516 | the older queue branch reads exactly one record of a `queue_status` event |
| Events.DiskBatch | pinolo.py:662-670 | the disk branch reads a disk list, or no records from an empty array, object or text, and nothing from any other shape |
| Pinolo.Ui.UpdateQueue | pinolo.py:487-527 | one row is appended with the id, the Process text, the drive, the PENDING icon and progress 0 |
| Pinolo.Ui.SetStatus | pinolo.py:652-660 | setting the status icon changes that row's status only |
| Pinolo.Ui.FindOrAppend | pinolo.py:634-644 | the search loop leaves the table and the row index that `Locate` specifies |
| Pinolo.Ui.ReconcileRecord | pinolo.py:634-660 | one record leaves the table that `Apply` under the flag chain specifies |
| Pinolo.Ui.ReconcileBatch | pinolo.py:633-660 | the loop over a list leaves the table that `ApplyAll` specifies |
| Pinolo.Ui.RebuildDisks | pinolo.py:662-680 | the get_disks branch leaves the disk table as written (`DisksAsWritten`) |
| Pinolo.Ui.RebuildDisksIntended | pinolo.py:662-680 | with the table emptied first, the rebuild leaves exactly the intended table (`DisksIntended`), whatever it showed before |
| Pinolo.Ui.GuiUpdate | pinolo.py:615-680 | queue events change the queue table only and disk events the disk table only, as specified above |
| Pinolo.Ui.QueueStop | pinolo.py:326-331 | raises exactly when no row is selected; on confirmation sends `stop <id>` of the selected row and nothing else |
| Pinolo.Ui.QueueRemove | pinolo.py:333-340 | raises exactly when no row is selected; on confirmation sends `remove` and drops the selected row only |
| Pinolo.Ui.QueueClear | pinolo.py:342-344 | the queue table becomes empty and exactly `remove all` is sent |
| Pinolo.Ui.Erase | pinolo.py:369-386 | with a selected drive and confirmation (or as part of the standard procedure) sends `queued_badblocks <drive>`, otherwise nothing |
| Pinolo.Ui.Smart | pinolo.py:388-403 | with a selected drive sends `queued_smartctl <drive>`, otherwise nothing |
| Pinolo.Ui.Cannolo | pinolo.py:405-424 | with a selected drive and confirmation (or as part of the standard procedure) sends `queued_cannolo <drive>`, otherwise nothing |
| Pinolo.Ui.Sleep | pinolo.py:426-441 | with a selected drive sends `queued_sleep <drive>`, otherwise nothing |
| Pinolo.Ui.LatestConf | pinolo.py:291-303 | the mode, host and port become those of `PinoloConf`, and the call raises exactly when it does |
| Pinolo.LocalServer.LoadServer | pinolo.py:729-738 | spawns a worker only when none runs, reads up to and including the first line containing "Listening on", sets the flag, and reports SERVER_READY either way |
| Pinolo.LocalServer.Stop | pinolo.py:740-743 | terminates the worker only when running and always clears the flag, so a second stop terminates nothing |
| Pesto.Ui.UpdateQueue | pesto.py:414-449 | one row is appended with the id, the Process text, the drive, the PENDING icon and progress 0 |
| Pesto.Ui.FindOrAppend | pesto.py:506-518 | the search loop leaves the table and the row index that `Locate` specifies |
| Pesto.Ui.ReconcileRecord | pesto.py:506-523 | one record leaves the table that `Apply` under the OK-at-100 rule specifies |
| Pesto.Ui.RebuildDisks | pesto.py:525-542 | the get_disks branch leaves the disk table as written (`DisksAsWritten`) |
| Pesto.Ui.GuiUpdate | pesto.py:492-542 | queue events change the queue table only and disk events the disk table only, as specified above |
| Pesto.Ui.QueueStop | pesto.py:297-302 | as written: always raises before the dialog, and nothing changes |
| Pesto.Ui.QueueRemove | pesto.py:304-309 | as written: always raises before the dialog, and nothing changes |
| Pesto.Ui.QueueStopIntended | pesto.py:297-302 | raises exactly when no row is selected; on confirmation marks only the selected row ERROR |
| Pesto.Ui.QueueRemoveIntended | pesto.py:304-309 | raises exactly when no row is selected; on confirmation drops the selected row only |
| Pesto.Ui.LatestConf | pesto.py:250-263 | the mode, host and port become those of `PestoConf` |

The scenario method `Pinolo.ServerLifecycle` (no contract of its own) strings the `LocalServer` members together: loading twice spawns one worker and reports readiness twice, and stopping twice terminates it once.

## Left out

- JSON decoding: `gui_update` is given the decoded payload (`Events.Payload`). A list of job records holds only well-formed records, so the model does not cover a list whose later record raises after earlier ones were applied.
- Text.ParseInt: does not accept the leading and trailing whitespace, the digit-group underscores or the non-ASCII decimal digits that Python's `int()` also accepts.
- The `int(...)` of a record's percentage and size: records carry the integer after conversion, so a fractional percentage and its truncation are not modelled.
- Jobs.SetProgress: treats a percentage of 2^31 or more like any other out-of-range value and leaves the bar as it was, where PyQt's `setValue` raises OverflowError on a value that does not fit a 32-bit C int (pinolo.py:647, pesto.py:520), after a new row may already have been appended and skipping the rest of a `get_queue` list; the worker never reports such percentages.
- Disks.SizeText: uses exact integer division where the source divides as floating point and truncates; the two agree for byte counts below 2^53.
- Pinolo.LocalServer.LoadServer: requires a line with "Listening on" when no worker runs, because the source reads lines for ever when it never comes, also past the end of the stream.
- The subprocess itself, its output pipe and `terminate()`: stood for by ghost counters of spawned and terminated workers.
- Dialogs: their answers are the `confirmed` parameters. Message texts, icons' pixmaps and scaling, alignment and `deselect` are display only.
- Sockets, the reactor thread and the queues between threads: `client.send` is the `sent` field.
- The other `gui_update` branches (`smartctl`, `connection_made`, `connection_failed`, `img_found`): they change neither table.
- `std_procedure` and `queue_info`: the first, after its dialog, calls erase and smart with `std` set, cannolo with `std` set only when the dialog's checkbox is ticked, and sleep without `std` (pinolo.py:362-367); each of those calls is modelled by its method. The second only shows a message.
- The erase, smart and cannolo buttons of the older front-end: they send the same texts as the newer one's without the `std` case and are not modelled separately.
- Settings persistence (`save_config`, `load_config`, `closeEvent`): only the parsing in `latest_conf` is modelled.
- The `rows += 1` inside the queue search loop: `range(rows + 1)` has already been evaluated, so it has no effect and is not modelled.
- The `except` clauses around the drive commands: nothing on the modelled paths raises inside them.

## Findings

| source | as written | input that shows it | evidently intended | confidence | as-written member | corrected member |
|---|---|---|---|---|---|---|
| pinolo.py:662-680 | `setRowCount` is only reached for a record that is not the boot device, so a non-empty list of boot devices alone skips it | the table shows `/dev/sda`, then `get_disks [{"path":"/dev/sdb","size":"2000000000","mountpoint":"[BOOT]"}]` arrives: `/dev/sda` stays listed | the disk table shows exactly the non-boot records of the latest list (also pesto.py:525-542) | high, not executed | Disks.AllBootKeepsOldRows | Pinolo.Ui.RebuildDisksIntended |
| pesto.py:297-309 | `queue_stop` and `queue_remove` read the id with `cellWidget(row, 0)`, but column 0 holds a text item, so the lookup is None and `.text()` raises | any call of queue_stop or queue_remove with a row selected (pesto.py as shown connects neither method): an AttributeError and no change | read the id with `item(row, 0)`; stop marks only that row ERROR, remove drops only that row | high, not executed | Pesto.Ui.QueueStop | Pesto.Ui.QueueStopIntended |
