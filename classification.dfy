/**
 * The configuration of the organizer and the pure part of its per-file decision:
 * the age test, the file suffix, and the first-match lookup of the lower-cased
 * suffix in the ordered category table.
 */
module Classification {

  /** Files last modified more than this many days ago are archived. */
  const DAYS_TO_ARCHIVE: int := 30
  const SECONDS_PER_DAY: int := 86400

  /** The catch-all folder and the archive folder. */
  const MISCELLANEOUS: string := "Miscellaneous"
  const OLD_FILES: string := "Old_Files"

  /** Category folder names with their extensions, in declaration order. */
  type CategoryTable = seq<(string, seq<string>)>

  const FILE_CATEGORIES: CategoryTable := [
    ("images", [".jpg", ".jpeg", ".png", ".gif"]),
    ("Documents", [".pdf", ".docx", ".txt"]),
    ("Archives", [".zip", ".rar", ".7z"]),
    ("Code", [".py", ".js", ".html"])
  ]

  /** The category names of a table, in order (the keys of the dictionary). */
  function Categories(table: CategoryTable): (r: seq<string>)
    ensures |r| == |table|
    ensures forall i :: 0 <= i < |table| ==> r[i] == table[i].0
  {
    seq(|table|, i requires 0 <= i < |table| => table[i].0)
  }

  /**
   * The destination folders to provision: every category, in declaration order,
   * then the catch-all and then the archive.
   */
  function AllFolders(table: CategoryTable): (r: seq<string>)
    ensures |r| == |table| + 2
    ensures r[..|table|] == Categories(table)
    ensures r[|table|] == MISCELLANEOUS && r[|table| + 1] == OLD_FILES
  {
    Categories(table) + [MISCELLANEOUS, OLD_FILES]
  }

  /** `now - timedelta(days=DAYS_TO_ARCHIVE)`, in seconds. */
  function ArchiveThreshold(now: int): (r: int)
    ensures r == now - 2592000
  {
    now - DAYS_TO_ARCHIVE * SECONDS_PER_DAY
  }

  /** A modification time strictly before the threshold makes a file old. */
  predicate IsOld(mtime: int, now: int)
    ensures IsOld(mtime, now) <==> now - mtime > 30 * 86400
  {
    mtime < ArchiveThreshold(now)
  }

  lemma ThresholdIsStrict(now: int)
    ensures ArchiveThreshold(now) == now - 2592000
    ensures !IsOld(ArchiveThreshold(now), now)
    ensures IsOld(ArchiveThreshold(now) - 1, now)
  {
  }

  /** `str.rfind('.')`: the index of the last dot, or -1 when there is none. */
  function LastDot(s: string): (k: int)
    ensures -1 <= k < |s|
    ensures k >= 0 ==> s[k] == '.'
    ensures forall j :: k < j < |s| ==> s[j] != '.'
  {
    if |s| == 0 then -1
    else if s[|s| - 1] == '.' then |s| - 1
    else LastDot(s[..|s| - 1])
  }

  /**
   * `PurePath.suffix`: the name from its last dot on, provided that dot is
   * neither the first nor the last character; otherwise the empty string.
   */
  function Suffix(name: string): (r: string)
    ensures r == "" || (2 <= |r| < |name| && r == name[|name| - |r|..])
    ensures r != "" ==> r[0] == '.' && forall j :: 1 <= j < |r| ==> r[j] != '.'
  {
    var i := LastDot(name);
    if 0 < i < |name| - 1 then name[i..] else ""
  }

  /** A name has a suffix exactly when some dot other than the first and last character is the last dot. */
  lemma SuffixCharacterization(name: string)
    ensures Suffix(name) != "" <==>
      exists i :: 0 < i < |name| - 1 && name[i] == '.' && forall j :: i < j < |name| ==> name[j] != '.'
  {
    var k := LastDot(name);
    if Suffix(name) != "" {
      assert 0 < k < |name| - 1 && name[k] == '.';
    } else {
      forall i | 0 < i < |name| - 1 && name[i] == '.'
        ensures exists j :: i < j < |name| && name[j] == '.'
      {
        if k == i {
          assert false;
        }
      }
    }
  }

  /** Under the conditions of the characterization the suffix starts at that dot. */
  lemma SuffixAt(name: string, i: int)
    requires 0 < i < |name| - 1 && name[i] == '.'
    requires forall j :: i < j < |name| ==> name[j] != '.'
    ensures Suffix(name) == name[i..]
  {
    assert LastDot(name) == i;
  }

  function LowerChar(c: char): char {
    if 'A' <= c <= 'Z' then (c as int + 32) as char else c
  }

  /** `str.lower()` on the ASCII letters. */
  function Lower(s: string): (r: string)
    ensures |r| == |s|
    ensures forall i :: 0 <= i < |r| ==> !('A' <= r[i] <= 'Z')
    ensures forall i :: 0 <= i < |r| ==> r[i] == s[i] || ('A' <= s[i] <= 'Z' && r[i] as int == s[i] as int + 32)
  {
    seq(|s|, i requires 0 <= i < |s| => LowerChar(s[i]))
  }

  /**
   * The index of the first category whose extension list contains `ext`, or
   * the length of the table when none does: the `for ... break` scan.
   */
  function FirstMatch(table: CategoryTable, ext: string): (i: nat)
    ensures i <= |table|
    ensures forall j :: 0 <= j < i ==> ext !in table[j].1
    ensures i < |table| ==> ext in table[i].1
  {
    if |table| == 0 then 0
    else if ext in table[0].1 then 0
    else 1 + FirstMatch(table[1..], ext)
  }

  /**
   * The destination chosen by file type: the first category listing the
   * lower-cased suffix, or the catch-all. There is no content-type fallback.
   */
  function TypeDestination(table: CategoryTable, name: string): (d: string)
    ensures d in AllFolders(table)
  {
    var i := FirstMatch(table, Lower(Suffix(name)));
    if i < |table| then table[i].0 else MISCELLANEOUS
  }

  /** The first category in table order that lists the lower-cased suffix wins, even if later ones list it too. */
  lemma FirstListingCategoryWins(table: CategoryTable, name: string, i: int)
    requires 0 <= i < |table|
    requires Lower(Suffix(name)) in table[i].1
    requires forall j :: 0 <= j < i ==> Lower(Suffix(name)) !in table[j].1
    ensures TypeDestination(table, name) == table[i].0
  {
  }

  /** A lower-cased suffix listed by no category, the empty one included, goes to the catch-all. */
  lemma UnlistedSuffixIsMiscellaneous(table: CategoryTable, name: string)
    requires forall j :: 0 <= j < |table| ==> Lower(Suffix(name)) !in table[j].1
    ensures TypeDestination(table, name) == MISCELLANEOUS
  {
  }

  /** Conversely, a type destination other than a category's is the catch-all and comes from an unlisted suffix. */
  lemma TypeDestinationCases(table: CategoryTable, name: string)
    ensures var ext := Lower(Suffix(name));
      || (exists i :: 0 <= i < |table| && ext in table[i].1 && TypeDestination(table, name) == table[i].0
                      && forall j :: 0 <= j < i ==> ext !in table[j].1)
      || ((forall j :: 0 <= j < |table| ==> ext !in table[j].1) && TypeDestination(table, name) == MISCELLANEOUS)
  {
    var ext := Lower(Suffix(name));
    var k := FirstMatch(table, ext);
    if k < |table| {
      assert ext in table[k].1 && TypeDestination(table, name) == table[k].0;
    }
  }

  /** The category names of the configured table are distinct and differ from the two fixed folders. */
  lemma ConfiguredFoldersAreDistinct()
    ensures forall i, j :: 0 <= i < j < |AllFolders(FILE_CATEGORIES)| ==>
      AllFolders(FILE_CATEGORIES)[i] != AllFolders(FILE_CATEGORIES)[j]
  {
    var f := AllFolders(FILE_CATEGORIES);
    assert f[..4] == Categories(FILE_CATEGORIES);
    assert f == ["images", "Documents", "Archives", "Code", "Miscellaneous", "Old_Files"];
  }

  /** An upper-case extension is matched after lower-casing: `REPORT.PDF` goes to `Documents`. */
  lemma UpperCaseExtensionMatches()
    ensures TypeDestination(FILE_CATEGORIES, "REPORT.PDF") == "Documents"
  {
    var name := "REPORT.PDF";
    SuffixAt(name, 6);
    assert Suffix(name) == ".PDF";
    assert Lower(".PDF") == ".pdf";
    FirstListingCategoryWins(FILE_CATEGORIES, name, 1);
  }

  /** Only the last suffix counts: `backup.tar.gz` has suffix `.gz`, which no category lists. */
  lemma OnlyLastSuffixCounts()
    ensures Suffix("backup.tar.gz") == ".gz"
    ensures TypeDestination(FILE_CATEGORIES, "backup.tar.gz") == MISCELLANEOUS
  {
    var name := "backup.tar.gz";
    SuffixAt(name, 10);
    assert Lower(".gz") == ".gz";
  }

  /** A hidden file such as `.py` has no suffix, so it is not treated as code. */
  lemma LeadingDotIsNoSuffix()
    ensures Suffix(".py") == "" && Suffix(".bashrc") == ""
    ensures TypeDestination(FILE_CATEGORIES, ".py") == MISCELLANEOUS
  {
    assert LastDot(".py") == 0;
    var s := ".bashrc";
    assert s[0] == '.' && forall j :: 0 < j < |s| ==> s[j] != '.';
    assert LastDot(s) == 0;
    assert Lower("") == "";
  }

  /** A name ending in a dot has no suffix. */
  lemma TrailingDotIsNoSuffix()
    ensures Suffix("notes.") == ""
  {
    assert LastDot("notes.") == 5;
  }

  /** An extension known only to content-type tables is not consulted: `photo.heic` is catch-all. */
  lemma NoContentTypeFallback()
    ensures TypeDestination(FILE_CATEGORIES, "photo.heic") == MISCELLANEOUS
  {
    var name := "photo.heic";
    SuffixAt(name, 5);
    assert Lower(".heic") == ".heic";
  }
}
