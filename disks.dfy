/** The disk table: what a `get_disks` event leaves in it. */
module Disks {
  import opened Text

  /** One decoded `get_disks` record; `size` is the byte count after `int(...)`. */
  datatype DiskRecord = DiskRecord(path: string, size: nat, mountpoint: string)

  /** One row of the disk table: the Drive and Dimension cell texts. */
  datatype DiskRow = DiskRow(drive: string, size: string)

  /** The boot device is marked by "[BOOT]" in its mount point. */
  predicate IsBoot(d: DiskRecord) {
    Contains(d.mountpoint, "[BOOT]")
  }

  /** The records that get a row, in input order. */
  function Visible(ds: seq<DiskRecord>): seq<DiskRecord>
    decreases |ds|
  {
    if ds == [] then [] else (if IsBoot(ds[0]) then [] else [ds[0]]) + Visible(ds[1..])
  }

  /** Filtering a concatenation filters each part and keeps their order. */
  lemma {:induction false} VisibleConcat(a: seq<DiskRecord>, b: seq<DiskRecord>)
    ensures Visible(a + b) == Visible(a) + Visible(b)
    decreases |a|
  {
    if a == [] {
      assert a + b == b;
    } else {
      assert (a + b)[0] == a[0];
      assert (a + b)[1..] == a[1..] + b;
      VisibleConcat(a[1..], b);
    }
  }

  /** A record is shown exactly when it is in the input and not the boot device. */
  lemma {:induction false} VisibleMembers(ds: seq<DiskRecord>)
    ensures |Visible(ds)| <= |ds|
    ensures forall d :: d in Visible(ds) <==> d in ds && !IsBoot(d)
    ensures Visible(ds) == [] <==> forall i :: 0 <= i < |ds| ==> IsBoot(ds[i])
    decreases |ds|
  {
    if ds != [] {
      VisibleMembers(ds[1..]);
      assert ds == [ds[0]] + ds[1..];
      assert forall i :: 1 <= i < |ds| ==> ds[i] == ds[1..][i - 1];
    }
  }

  /** The Dimension cell: whole gigabytes, truncated, then " GB". */
  function SizeText(size: nat): string {
    NatToString(size / 1000000000) + " GB"
  }

  /** The Dimension cell ends in " GB" and its number reads back as the size
      in whole gigabytes. */
  lemma SizeTextReadsBack(size: nat)
    ensures var s := SizeText(size);
      |s| > 3 && s[|s| - 3..] == " GB" && ParseInt(s[..|s| - 3]) == Some(size / 1000000000)
  {
    var s := SizeText(size);
    assert s[..|s| - 3] == NatToString(size / 1000000000);
    ParseNatToString(size / 1000000000);
  }

  /** The Drive cell: the path, with "Disk " in front on Windows. */
  function DriveText(d: DiskRecord, win32: bool): string {
    if win32 then "Disk " + d.path else d.path
  }

  function RenderRow(d: DiskRecord, win32: bool): DiskRow {
    DiskRow(DriveText(d, win32), SizeText(d.size))
  }

  /** Row i shows record i. */
  function RenderAll(ds: seq<DiskRecord>, win32: bool): (rows: seq<DiskRow>)
    ensures |rows| == |ds|
    ensures forall i :: 0 <= i < |ds| ==> rows[i] == RenderRow(ds[i], win32)
  {
    seq(|ds|, i requires 0 <= i < |ds| => RenderRow(ds[i], win32))
  }

  /** A row whose cells have never been filled. */
  const BlankRow := DiskRow("", "")

  /** QTableWidget.setRowCount: rows past `n` are discarded, missing rows are
      added empty. */
  function SetRowCount(rows: seq<DiskRow>, n: nat): (r: seq<DiskRow>)
    ensures |r| == n
    ensures forall i :: 0 <= i < n && i < |rows| ==> r[i] == rows[i]
  {
    if n <= |rows| then rows[..n] else rows + seq(n - |rows|, _ => BlankRow)
  }

  /** The disk table the get_disks branch leaves, as written: an empty list
      clears it; otherwise setRowCount is only reached for a record that is
      not the boot device, so a list of boot devices alone leaves the old rows. */
  function DisksAsWritten(current: seq<DiskRow>, ds: seq<DiskRecord>, win32: bool): seq<DiskRow> {
    if |ds| == 0 then [] else if Visible(ds) == [] then current else RenderAll(Visible(ds), win32)
  }

  /** The evidently intended table: exactly the non-boot records, in order,
      whatever the table showed before. */
  function DisksIntended(ds: seq<DiskRecord>, win32: bool): (rows: seq<DiskRow>)
    ensures |rows| == |Visible(ds)|
    ensures forall i :: 0 <= i < |rows| ==> rows[i] == RenderRow(Visible(ds)[i], win32)
  {
    RenderAll(Visible(ds), win32)
  }

  /** The intended table is a filter-then-map: it distributes over
      concatenation, and a single record gives a row exactly when it is not
      the boot device. */
  lemma DisksIntendedConcat(a: seq<DiskRecord>, b: seq<DiskRecord>, win32: bool)
    ensures DisksIntended(a + b, win32) == DisksIntended(a, win32) + DisksIntended(b, win32)
    ensures forall d :: DisksIntended([d], win32) == if IsBoot(d) then [] else [RenderRow(d, win32)]
  {
    VisibleConcat(a, b);
    forall d ensures DisksIntended([d], win32) == if IsBoot(d) then [] else [RenderRow(d, win32)] {
      assert [d][1..] == [];
      assert Visible([d]) == if IsBoot(d) then [] else [d];
    }
  }

  /** As written and intended agree except on a non-empty list of boot
      devices alone. */
  lemma AsWrittenAgreesUnlessAllBoot(current: seq<DiskRow>, ds: seq<DiskRecord>, win32: bool)
    ensures DisksAsWritten(current, ds, win32) == DisksIntended(ds, win32)
      <==> |ds| == 0 || current == [] || exists i :: 0 <= i < |ds| && !IsBoot(ds[i])
  {
    VisibleMembers(ds);
    if exists i :: 0 <= i < |ds| && !IsBoot(ds[i]) {
      var i :| 0 <= i < |ds| && !IsBoot(ds[i]);
      assert ds[i] in Visible(ds);
    }
  }

  /** The discrepancy on a concrete input: the table shows /dev/sda, then a
      list holding only the boot device arrives. */
  lemma AllBootKeepsOldRows()
    ensures var before := [DiskRow("/dev/sda", "1000 GB")];
      var ds := [DiskRecord("/dev/sdb", 2000000000, "[BOOT]")];
      DisksAsWritten(before, ds, false) == before && DisksIntended(ds, false) == []
  {
    var ds := [DiskRecord("/dev/sdb", 2000000000, "[BOOT]")];
    assert OccursAt("[BOOT]", "[BOOT]", 0);
    assert IsBoot(ds[0]);
    assert ds[1..] == [];
  }

  /** The boot device is dropped and a terabyte disk shows as "1000 GB". */
  lemma BootDiskHidden()
    ensures DisksIntended([DiskRecord("/dev/sda", 1000000000000, "/"),
                           DiskRecord("/dev/sdb", 2000000000, "[BOOT]")], false)
         == [DiskRow("/dev/sda", "1000 GB")]
  {
    var a := DiskRecord("/dev/sda", 1000000000000, "/");
    var b := DiskRecord("/dev/sdb", 2000000000, "[BOOT]");
    assert !IsBoot(a) by {
      assert forall i :: !OccursAt("/", "[BOOT]", i);
    }
    assert OccursAt("[BOOT]", "[BOOT]", 0);
    assert [a, b][1..] == [b] && [b][1..] == [];
    assert Visible([b]) == [];
    assert Visible([a, b]) == [a] + Visible([b]);
    assert NatToString(1000) == "1000" by {
      assert NatToString(1) == "1";
      assert NatToString(10) == NatToString(1) + "0";
      assert NatToString(100) == NatToString(10) + "0";
      assert NatToString(1000) == NatToString(100) + "0";
    }
    assert a.size / 1000000000 == 1000;
    assert SizeText(a.size) == "1000 GB";
    assert RenderAll([a], false) == [RenderRow(a, false)];
  }
}
