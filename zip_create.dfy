/**
 * The archive creator (scripts/zip.php): normalise the output name,
 * refuse an existing one, list the current directory without `.` and
 * `..`, and add every listed item to a new zip archive, marking each for
 * AES-256 when a password is used.
 */
module ZipCreate {
  import opened Php

  /** The output name always carries `.zip`: appended unless already there. */
  function ArchiveName(raw: string): (name: string)
    ensures EndsWith(name, ".zip")
    ensures EndsWith(raw, ".zip") ==> name == raw
    ensures !EndsWith(raw, ".zip") ==> name == raw + ".zip"
  {
    SubstrCompareIsEndsWith(raw, ".zip");
    EndsWithAppended(raw, ".zip");
    if SubstrCompareFromEndIsZero(raw, ".zip", 4) then raw else raw + ".zip"
  }

  lemma ArchiveNameIdempotent(raw: string)
    ensures ArchiveName(ArchiveName(raw)) == ArchiveName(raw)
  {
  }

  lemma ArchiveNameExample()
    ensures ArchiveName("output") == "output.zip"
    ensures ArchiveName("output.zip") == "output.zip"
  {
    ArchiveNameKeepsOwnName("output.zip");
  }

  lemma ArchiveNameKeepsOwnName(raw: string)
    requires EndsWith(raw, ".zip")
    ensures ArchiveName(raw) == raw
  {
  }

  /** The self and parent entries that `array_diff` drops from `scandir`'s listing. */
  predicate IsDotEntry(entry: string) {
    entry == "." || entry == ".."
  }

  /** `array_diff(scandir(getcwd()), ['.', '..'])`, in listing order. */
  function Items(listing: seq<string>): (items: seq<string>)
    ensures forall x :: x in items <==> x in listing && !IsDotEntry(x)
    ensures |items| <= |listing|
  {
    if listing == [] then []
    else (if IsDotEntry(listing[0]) then [] else [listing[0]]) + Items(listing[1..])
  }

  /** Filtering distributes over concatenation: the kept entries stay in listing order. */
  lemma {:induction false} ItemsAppend(a: seq<string>, b: seq<string>)
    ensures Items(a + b) == Items(a) + Items(b)
  {
    if a == [] {
      assert a + b == b;
    } else {
      assert (a + b)[1..] == a[1..] + b;
      ItemsAppend(a[1..], b);
    }
  }

  /** Exactly `.` and `..` go; every other entry is kept once, in place. */
  lemma ItemsOfOne(entry: string)
    ensures Items([entry]) == if IsDotEntry(entry) then [] else [entry]
  {
    assert [entry][1..] == [];
  }

  predicate Distinct(s: seq<string>) {
    forall i, j :: 0 <= i < j < |s| ==> s[i] != s[j]
  }

  /** `scandir` names each entry once, so the items are distinct too. */
  lemma {:induction false} ItemsDistinct(listing: seq<string>)
    requires Distinct(listing)
    ensures Distinct(Items(listing))
  {
    if listing != [] {
      ItemsDistinct(listing[1..]);
      assert listing[0] !in listing[1..];
    }
  }

  /** One entry of the archive: its name inside the archive, the file it was added from, AES-256 or not. */
  datatype Entry = Entry(name: string, source: string, aes: bool)

  function Names(entries: seq<Entry>): (names: seq<string>)
    ensures |names| == |entries|
    ensures forall i :: 0 <= i < |entries| ==> names[i] == entries[i].name
  {
    if entries == [] then [] else Names(entries[..|entries| - 1]) + [entries[|entries| - 1].name]
  }

  /** `addFile`: a new name is appended; an existing name has its entry replaced in place. */
  function Put(entries: seq<Entry>, e: Entry): (r: seq<Entry>)
    ensures e in r
  {
    if entries == [] then [e]
    else if entries[0].name == e.name then [e] + entries[1..]
    else [entries[0]] + Put(entries[1..], e)
  }

  lemma {:induction false} PutNewName(entries: seq<Entry>, e: Entry)
    requires e.name !in Names(entries)
    ensures Put(entries, e) == entries + [e]
  {
    if entries != [] {
      assert entries[0].name == Names(entries)[0];
      assert forall i :: 0 <= i < |entries| - 1 ==> entries[1..][i].name == Names(entries)[i + 1];
      PutNewName(entries[1..], e);
      assert [entries[0]] + (entries[1..] + [e]) == entries + [e];
    }
  }

  /** `setEncryptionName($name, ZipArchive::EM_AES_256)`: the entry of that name is marked for AES-256. */
  function Encrypt(entries: seq<Entry>, name: string): (r: seq<Entry>)
    ensures |r| == |entries|
    ensures forall i :: 0 <= i < |r| ==>
      r[i] == if entries[i].name == name then entries[i].(aes := true) else entries[i]
  {
    seq(|entries|, i requires 0 <= i < |entries| =>
      if entries[i].name == name then entries[i].(aes := true) else entries[i])
  }

  /** What the loop of lines 43-49 adds for `items`, one entry per item in order. */
  function Planned(cwd: string, sep: string, items: seq<string>, usePassword: bool): (entries: seq<Entry>) {
    if items == [] then []
    else Planned(cwd, sep, items[..|items| - 1], usePassword) +
         [Entry(items[|items| - 1], cwd + sep + items[|items| - 1], usePassword)]
  }

  /**
   * Each item becomes exactly one entry named after it, added from
   * `cwd . DIRECTORY_SEPARATOR . item`, AES-256 exactly when a password
   * is used.
   */
  lemma {:induction false} PlannedEntries(cwd: string, sep: string, items: seq<string>, usePassword: bool)
    ensures |Planned(cwd, sep, items, usePassword)| == |items|
    ensures Names(Planned(cwd, sep, items, usePassword)) == items
    ensures forall i :: 0 <= i < |items| ==>
      Planned(cwd, sep, items, usePassword)[i] == Entry(items[i], cwd + sep + items[i], usePassword)
  {
    if items != [] {
      var init := items[..|items| - 1];
      PlannedEntries(cwd, sep, init, usePassword);
      assert items == init + [items[|items| - 1]];
    }
  }

  /** The handle of the archive being written (`new ZipArchive`). */
  class Archive {
    var entries: seq<Entry>
    var password: string
    var closed: bool

    constructor ()
      ensures entries == [] && password == "" && !closed
    {
      entries := [];
      password := "";
      closed := false;
    }

    method SetPassword(p: string)
      modifies this
      ensures password == p && entries == old(entries) && closed == old(closed)
    {
      password := p;
    }

    method AddFile(path: string, name: string)
      modifies this
      ensures entries == Put(old(entries), Entry(name, path, false))
      ensures password == old(password) && closed == old(closed)
    {
      entries := Put(entries, Entry(name, path, false));
    }

    method SetEncryptionName(name: string)
      modifies this
      ensures entries == Encrypt(old(entries), name)
      ensures password == old(password) && closed == old(closed)
    {
      entries := Encrypt(entries, name);
    }

    method Close()
      modifies this
      ensures closed && entries == old(entries) && password == old(password)
    {
      closed := true;
    }
  }

  /**
   * The loop of lines 43-49 on a freshly opened archive: every item is
   * added once, under its own name, from `cwd . sep . item`, and marked
   * for AES-256 exactly when a password is used.
   */
  method AddItems(archive: Archive, cwd: string, sep: string, items: seq<string>, usePassword: bool)
    requires archive.entries == [] && Distinct(items)
    modifies archive
    ensures archive.entries == Planned(cwd, sep, items, usePassword)
    ensures archive.password == old(archive.password) && archive.closed == old(archive.closed)
  {
    var i := 0;
    while i < |items|
      invariant 0 <= i <= |items|
      invariant archive.entries == Planned(cwd, sep, items[..i], usePassword)
      invariant archive.password == old(archive.password) && archive.closed == old(archive.closed)
    {
      var item := items[i];
      var path := cwd + sep + item;
      AddOneItem(cwd, sep, items, i, usePassword);
      archive.AddFile(path, item);
      if usePassword {
        archive.SetEncryptionName(item);
      }
      i := i + 1;
    }
    assert items[..i] == items;
  }

  /** One turn of the loop: the item's name is new, so it is appended, and only it gets the AES mark. */
  lemma AddOneItem(cwd: string, sep: string, items: seq<string>, i: nat, usePassword: bool)
    requires i < |items| && Distinct(items)
    ensures var done := Planned(cwd, sep, items[..i], usePassword);
      var e := Entry(items[i], cwd + sep + items[i], false);
      Put(done, e) == done + [e] &&
      Encrypt(done + [e], items[i]) == done + [e.(aes := true)] &&
      Planned(cwd, sep, items[..i + 1], usePassword) == done + [e.(aes := usePassword)]
  {
    var done := Planned(cwd, sep, items[..i], usePassword);
    var e := Entry(items[i], cwd + sep + items[i], false);
    PlannedEntries(cwd, sep, items[..i], usePassword);
    assert items[i] !in items[..i];
    PutNewName(done, e);
    assert Encrypt(done + [e], items[i]) == done + [e.(aes := true)];
    assert items[..i + 1][..i] == items[..i];
  }

  datatype CreateErr = AlreadyExists(name: string) | OpenFailed(status: string)

  /**
   * The whole creator.  `existing` is what `file_exists` answers yes to,
   * `stdinLine` what `fgets(STDIN)` would return, `opens` and
   * `openStatus` the outcome of `ZipArchive::open(..., CREATE)`.
   * `prompted` says whether the password prompt was printed and standard
   * input read; `archive` is the handle, null when none was made.
   */
  method CreateZip(listing: seq<string>, cwd: string, sep: string, raw: string, usePassword: bool,
                   stdinLine: Option<string>, existing: set<string>, opens: bool, openStatus: string)
      returns (r: Result<string, CreateErr>, prompted: bool, archive: Archive?)
    requires Distinct(listing)
    ensures var name := ArchiveName(raw);
      if name in existing then
        r == Err(AlreadyExists(name)) && !prompted && archive == null
      else
        prompted == usePassword && archive != null && fresh(archive) &&
        if !opens then
          r == Err(OpenFailed(openStatus)) && archive.entries == []
        else
          r == Ok(name) && archive.closed &&
          archive.entries == Planned(cwd, sep, Items(listing), usePassword) &&
          archive.password == ReadPassword(usePassword, stdinLine)
  {
    var items := Items(listing);
    ItemsDistinct(listing);
    var name := ArchiveName(raw);
    if name in existing {
      return Err(AlreadyExists(name)), false, null;
    }
    prompted := usePassword;
    var password := ReadPassword(usePassword, stdinLine);
    archive := new Archive();
    if !opens {
      return Err(OpenFailed(openStatus)), prompted, archive;
    }
    if usePassword {
      archive.SetPassword(password);
    }
    AddItems(archive, cwd, sep, items, usePassword);
    archive.Close();
    r := Ok(name);
  }
}
