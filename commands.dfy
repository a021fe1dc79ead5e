/** The command texts the operator's buttons send to the worker:
    `<verb> <drive>`, where the drive is the selected Drive cell passed
    through Python's `lstrip("Disk ")`. */
module Commands {
  import opened Text
  import opened Disks

  const EraseVerb := "queued_badblocks"
  const SmartVerb := "queued_smartctl"
  const CannoloVerb := "queued_cannolo"
  const SleepVerb := "queued_sleep"

  /** `lstrip` takes its argument as a SET of characters: any leading run of
      these is removed, not the prefix "Disk ". */
  const StripChars: set<char> := {'D', 'i', 's', 'k', ' '}

  /** Python's `s.lstrip("Disk ")`. */
  function LstripDisk(s: string): (r: string)
    ensures |r| <= |s| && r == s[|s| - |r|..]
    ensures r == [] || r[0] !in StripChars
    ensures forall i :: 0 <= i < |s| - |r| ==> s[i] in StripChars
    decreases |s|
  {
    if s != [] && s[0] in StripChars then
      var r := LstripDisk(s[1..]);
      assert forall i :: 1 <= i < |s| - |r| ==> s[i] == s[1..][i - 1];
      r
    else s
  }

  /** The three properties of LstripDisk pin its result down: it is the
      longest suffix that does not start with a stripped character and is
      preceded only by stripped characters. */
  lemma LstripCharacterized(s: string, r: string)
    requires |r| <= |s| && r == s[|s| - |r|..]
    requires r == [] || r[0] !in StripChars
    requires forall i :: 0 <= i < |s| - |r| ==> s[i] in StripChars
    ensures r == LstripDisk(s)
  {
  }

  lemma LstripIdempotent(s: string)
    ensures LstripDisk(LstripDisk(s)) == LstripDisk(s)
  {
    var r := LstripDisk(s);
    LstripCharacterized(r, r);
  }

  /** On Windows the Drive cell is "Disk " + path, and the command gets the
      path back as long as the path does not itself start with one of the
      stripped characters; elsewhere the cell is the path itself. */
  lemma LstripRecoversPath(p: string)
    requires p == [] || p[0] !in StripChars
    ensures LstripDisk("Disk " + p) == p
    ensures LstripDisk(p) == p
  {
    var s := "Disk " + p;
    assert s[|s| - |p|..] == p;
    LstripCharacterized(s, p);
    LstripCharacterized(p, p);
  }

  /** When the path does start with a stripped character more is removed:
      "Disk sda" becomes "da", not "sda". */
  lemma LstripOverStrips()
    ensures LstripDisk("Disk sda") == "da"
  {
    var s := "Disk sda";
    assert s[|s| - 2..] == "da";
    LstripCharacterized(s, "da");
  }

  /** `diskTable.item(currentRow, 0)` stripped, or None when no row is
      selected (currentRow is -1 or past the table). */
  function SelectedDrive(diskTable: seq<DiskRow>, current: int): (d: Option<string>)
    ensures d.Some? <==> 0 <= current < |diskTable|
    ensures d.Some? ==> d.value == LstripDisk(diskTable[current].drive)
  {
    if 0 <= current < |diskTable| then Some(LstripDisk(diskTable[current].drive)) else None
  }

  /** The text sent for a verb applied to a drive. */
  function DriveCommand(verb: string, drive: string): string {
    verb + " " + drive
  }

  /** Reads a command of the form `<verb>[ <argument>]` back: the verb runs
      up to the first space, the argument is the rest. */
  function SplitCommand(text: string): (r: (string, string))
    ensures ' ' !in r.0
    ensures ' ' in text ==> text == r.0 + " " + r.1
    ensures ' ' !in text ==> r == (text, "")
    decreases |text|
  {
    if text == [] then ("", "")
    else if text[0] == ' ' then ("", text[1..])
    else
      var (v, a) := SplitCommand(text[1..]);
      assert ' ' in text[1..] ==> text[1..] == v + " " + a;
      assert text == [text[0]] + text[1..];
      ([text[0]] + v, a)
  }

  /** Every drive command parses back into its verb and its drive. */
  lemma DriveCommandRoundTrip(verb: string, drive: string)
    requires ' ' !in verb
    ensures SplitCommand(DriveCommand(verb, drive)) == (verb, drive)
    decreases |verb|
  {
    if verb != [] {
      assert DriveCommand(verb, drive)[1..] == DriveCommand(verb[1..], drive);
      DriveCommandRoundTrip(verb[1..], drive);
      assert [verb[0]] + verb[1..] == verb;
    }
  }

  /** The drive a command names is the path the selected row shows, on either
      platform, for paths that start with none of the stripped characters. */
  lemma SelectedDriveIsPath(ds: seq<DiskRecord>, win32: bool, current: int)
    requires 0 <= current < |ds|
    requires ds[current].path == [] || ds[current].path[0] !in StripChars
    ensures SelectedDrive(RenderAll(ds, win32), current) == Some(ds[current].path)
  {
    LstripRecoversPath(ds[current].path);
  }
}
