/** Locating the thinkpad driver's directory among the entries of
    `/sys/class/hwmon` (the `HWMON_PATH` initialiser of `src/acpi.rs`). */
module Hwmon {
  import opened Wrappers

  /** The `name` file of an entry: unreadable (open or read failed), or its text. */
  datatype NameFile = NameUnreadable | NameText(text: string)

  /** One item of the directory listing: an entry that could not be read, or a
      directory path with its `name` file. */
  datatype DirEntry = EntryError | Entry(dir: string, name: NameFile)

  /** The exact content, trailing newline included, that identifies the driver. */
  const ThinkpadName: string := "thinkpad\n"

  predicate IsThinkpad(e: DirEntry) {
    e.Entry? && e.name == NameText(ThinkpadName)
  }

  /** The first entry, in listing order, whose `name` file reads exactly
      `"thinkpad\n"`; unreadable entries and names are skipped. `None` is the
      case where the tool panics because no entry matched. */
  function FindHwmon(entries: seq<DirEntry>): (r: Option<string>)
    ensures r.None? <==> forall i :: 0 <= i < |entries| ==> !IsThinkpad(entries[i])
    ensures r.Some? ==> exists i :: 0 <= i < |entries| && IsFirstThinkpad(entries, i)
                                    && entries[i].dir == r.value
  {
    if |entries| == 0 then None
    else if IsThinkpad(entries[0]) then
      assert IsFirstThinkpad(entries, 0);
      Some(entries[0].dir)
    else
      var r := FindHwmon(entries[1..]);
      if r.Some? then
        var i :| 0 <= i < |entries[1..]| && IsFirstThinkpad(entries[1..], i) && entries[1..][i].dir == r.value;
        assert IsFirstThinkpad(entries, i + 1);
        r
      else
        assert forall i :: 1 <= i < |entries| ==> entries[i] == entries[1..][i - 1];
        r
  }

  /** Entry `i` matches and no earlier entry does. */
  predicate IsFirstThinkpad(entries: seq<DirEntry>, i: nat) {
    && i < |entries|
    && IsThinkpad(entries[i])
    && forall j :: 0 <= j < i ==> !IsThinkpad(entries[j])
  }

  /** The comparison is exact: a name without the trailing newline does not match. */
  lemma NameWithoutNewlineRejected(dir: string)
    ensures FindHwmon([Entry(dir, NameText("thinkpad"))]) == None
  {
    assert "thinkpad" != ThinkpadName by {
      assert |"thinkpad"| != |ThinkpadName|;
    }
  }

  /** With several matching entries, the first one listed wins. */
  lemma {:induction false} FirstMatchWins(entries: seq<DirEntry>, i: nat)
    requires IsFirstThinkpad(entries, i)
    ensures FindHwmon(entries) == Some(entries[i].dir)
  {
    var r := FindHwmon(entries);
    var j :| 0 <= j < |entries| && IsFirstThinkpad(entries, j) && entries[j].dir == r.value;
    assert j == i;
  }
}
