/**
 * The sheet index: a scan of a flat directory of PDF cheat sheets into a
 * table keyed by the normalised file name, plus the list of every entry.
 * The directory listing (what g_dir_read_name yields, in order) is an input.
 */
module SheetIndex {
  import opened Wrappers
  import opened Ascii

  /** One indexed document: its full path and its lower-cased stem. */
  datatype SheetEntry = SheetEntry(path: string, basename: string)

  const SheetSuffix: string := ".pdf"

  /** Only names ending in exactly ".pdf" (case-sensitive) are sheets. */
  predicate IsSheetFile(name: string) {
    HasSuffix(name, SheetSuffix)
  }

  /** g_build_filename(dir, name) for a plain file name. */
  function JoinPath(dir: string, name: string): string {
    if dir == [] then name
    else if dir[|dir| - 1] == '/' then dir + name
    else dir + "/" + name
  }

  /** The entry a sheet file yields: the name minus its last four characters, lower-cased. */
  function EntryFor(dir: string, name: string): SheetEntry
    requires IsSheetFile(name)
  {
    SheetEntry(JoinPath(dir, name), Lower(name[..|name| - 4]))
  }

  /** A sheet's key is its name without ".pdf", lower-cased letter by letter, and its path ends in the name. */
  lemma EntryForShape(dir: string, name: string)
    requires IsSheetFile(name)
    ensures var e := EntryFor(dir, name);
      && |e.basename| == |name| - |SheetSuffix|
      && (forall i :: 0 <= i < |e.basename| ==> e.basename[i] == LowerChar(name[i]))
      && HasSuffix(e.path, name)
  {
    var e := EntryFor(dir, name);
    if dir != [] && dir[|dir| - 1] != '/' {
      assert e.path == (dir + "/") + name;
    }
  }

  /** The entries a scan of `names` creates, in scan order. */
  function Scanned(dir: string, names: seq<string>): seq<SheetEntry> {
    if names == [] then []
    else
      var last := names[|names| - 1];
      Scanned(dir, names[..|names| - 1]) + (if IsSheetFile(last) then [EntryFor(dir, last)] else [])
  }

  /** The table after inserting `entries` one by one into `table`. */
  function Inserted(table: map<string, SheetEntry>, entries: seq<SheetEntry>): map<string, SheetEntry> {
    if entries == [] then table
    else
      var last := entries[|entries| - 1];
      Inserted(table, entries[..|entries| - 1])[last.basename := last]
  }

  /** `s` back to front. */
  function Reversed<T>(s: seq<T>): seq<T> {
    if s == [] then [] else [s[|s| - 1]] + Reversed(s[..|s| - 1])
  }

  /**
   * The index's two views agree: every table entry is filed under its own
   * basename and is one of the listed entries, and every listed entry's
   * basename is in the table.
   */
  ghost predicate Consistent(table: map<string, SheetEntry>, list: seq<SheetEntry>) {
    && (forall b :: b in table ==> table[b].basename == b && table[b] in list)
    && (forall e :: e in list ==> e.basename in table)
  }

  /** Prepending an entry and filing it under its basename keeps the two views in agreement. */
  lemma FilingKeepsConsistent(table: map<string, SheetEntry>, list: seq<SheetEntry>, e: SheetEntry)
    requires Consistent(table, list)
    ensures Consistent(table[e.basename := e], [e] + list)
  {
  }

  class Index {
    /** sheets_by_basename */
    var byBasename: map<string, SheetEntry>
    /** all_sheets, most recently scanned first */
    var allSheets: seq<SheetEntry>

    /**
     * Every table entry is filed under its own basename and is one of the
     * listed entries, and every listed entry's basename is in the table.
     */
    ghost predicate Valid()
      reads this
    {
      Consistent(byBasename, allSheets)
    }

    /** cheeter_index_new */
    constructor ()
      ensures Valid()
      ensures byBasename == map[] && allSheets == []
    {
      byBasename := map[];
      allSheets := [];
    }

    /**
     * cheeter_index_scan_dir. `listing` is None when the directory cannot be
     * opened; otherwise it is the directory's entry names in read order.
     */
    method ScanDir(dir: string, listing: Option<seq<string>>)
      requires Valid()
      modifies this
      ensures Valid()
      ensures listing.None? ==> byBasename == old(byBasename) && allSheets == old(allSheets)
      ensures listing.Some? ==>
        && allSheets == Reversed(Scanned(dir, listing.value)) + old(allSheets)
        && byBasename == Inserted(old(byBasename), Scanned(dir, listing.value))
    {
      if listing.None? {
        return;
      }
      var names := listing.value;
      ghost var table0 := byBasename;
      ghost var list0 := allSheets;
      var i := 0;
      assert names[..0] == [];
      while i < |names|
        invariant 0 <= i <= |names|
        invariant allSheets == Reversed(Scanned(dir, names[..i])) + list0
        invariant byBasename == Inserted(table0, Scanned(dir, names[..i]))
      {
        var name := names[i];
        ScanStep(dir, names, i, table0, list0, byBasename, allSheets);
        if IsSheetFile(name) {
          var entry := EntryFor(dir, name);
          allSheets := [entry] + allSheets;
          byBasename := byBasename[entry.basename := entry];
        }
        i := i + 1;
      }
      assert names[..i] == names;
      ScanKeepsConsistent(table0, list0, Scanned(dir, names));
    }

    /** cheeter_index_find_by_basename: an exact lookup, no normalisation. */
    function Find(basename: string): (r: Option<SheetEntry>)
      requires Valid()
      reads this
      ensures r.Some? <==> basename in byBasename
      ensures r.Some? ==> r.value.basename == basename && r.value in allSheets
      ensures r.Some? ==> r.value == byBasename[basename]
    {
      if basename in byBasename then Some(byBasename[basename]) else None
    }
  }

  /** One more listed name adds its entry when it is a sheet, and nothing otherwise. */
  lemma ScannedStep(dir: string, names: seq<string>, i: nat)
    requires i < |names|
    ensures Scanned(dir, names[..i + 1]) ==
      Scanned(dir, names[..i]) + (if IsSheetFile(names[i]) then [EntryFor(dir, names[i])] else [])
  {
    assert names[..i + 1][..i] == names[..i];
  }

  /** Prepending reverses: the newest entry comes first. */
  lemma ReversedSnoc<T>(s: seq<T>, x: T)
    ensures Reversed(s + [x]) == [x] + Reversed(s)
  {
    assert (s + [x])[..|s|] == s;
  }

  /** Inserting one more entry files it under its basename. */
  lemma InsertedSnoc(table: map<string, SheetEntry>, entries: seq<SheetEntry>, e: SheetEntry)
    ensures Inserted(table, entries + [e]) == Inserted(table, entries)[e.basename := e]
  {
    assert (entries + [e])[..|entries|] == entries;
  }

  /** One loop step of the scan extends the scanned entries by the step's name. */
  lemma ScanStep(dir: string, names: seq<string>, i: nat, table0: map<string, SheetEntry>, list0: seq<SheetEntry>,
                 table: map<string, SheetEntry>, list: seq<SheetEntry>)
    requires i < |names|
    requires list == Reversed(Scanned(dir, names[..i])) + list0
    requires table == Inserted(table0, Scanned(dir, names[..i]))
    ensures IsSheetFile(names[i]) ==>
      var e := EntryFor(dir, names[i]);
      && [e] + list == Reversed(Scanned(dir, names[..i + 1])) + list0
      && table[e.basename := e] == Inserted(table0, Scanned(dir, names[..i + 1]))
    ensures !IsSheetFile(names[i]) ==>
      && list == Reversed(Scanned(dir, names[..i + 1])) + list0
      && table == Inserted(table0, Scanned(dir, names[..i + 1]))
  {
    var done := Scanned(dir, names[..i]);
    ScannedStep(dir, names, i);
    if IsSheetFile(names[i]) {
      var e := EntryFor(dir, names[i]);
      ReversedSnoc(done, e);
      InsertedSnoc(table0, done, e);
    } else {
      assert done + [] == done;
    }
  }

  /** Filing a run of entries keeps the table and the list in agreement. */
  lemma {:induction false} ScanKeepsConsistent(table: map<string, SheetEntry>, list: seq<SheetEntry>, entries: seq<SheetEntry>)
    requires Consistent(table, list)
    ensures Consistent(Inserted(table, entries), Reversed(entries) + list)
  {
    if entries != [] {
      var n := |entries| - 1;
      var init := entries[..n];
      var e := entries[n];
      ScanKeepsConsistent(table, list, init);
      FilingKeepsConsistent(Inserted(table, init), Reversed(init) + list, e);
      assert Reversed(entries) + list == [e] + (Reversed(init) + list);
    }
  }

  /** The sheets a scan creates are exactly the entries of the ".pdf" names it was given. */
  lemma {:induction false} ScannedExactlySheets(dir: string, names: seq<string>, e: SheetEntry)
    ensures e in Scanned(dir, names) <==> exists k :: 0 <= k < |names| && IsSheetFile(names[k]) && e == EntryFor(dir, names[k])
  {
    if names != [] {
      var init := names[..|names| - 1];
      ScannedExactlySheets(dir, init, e);
      if e in Scanned(dir, names) {
        if e !in Scanned(dir, init) {
          var k := |names| - 1;
          assert IsSheetFile(names[k]) && e == EntryFor(dir, names[k]);
        } else {
          var k :| 0 <= k < |init| && IsSheetFile(init[k]) && e == EntryFor(dir, init[k]);
          assert names[k] == init[k];
        }
      } else {
        forall k | 0 <= k < |names| && IsSheetFile(names[k])
          ensures e != EntryFor(dir, names[k])
        {
          if k < |init| {
            assert names[k] == init[k];
          }
        }
      }
    }
  }

  /** Each ".pdf" name adds exactly one entry; other names add none. */
  lemma {:induction false} ScannedCount(dir: string, names: seq<string>)
    ensures |Scanned(dir, names)| == |set k | 0 <= k < |names| && IsSheetFile(names[k])|
  {
    if names != [] {
      var n := |names| - 1;
      var init := names[..n];
      ScannedCount(dir, init);
      var before := set k | 0 <= k < n && IsSheetFile(init[k]);
      var after := set k | 0 <= k < |names| && IsSheetFile(names[k]);
      if IsSheetFile(names[n]) {
        assert after == before + {n};
      } else {
        assert after == before;
      }
    }
  }

  lemma {:induction false} ReversedAt<T>(s: seq<T>, k: nat)
    requires k < |s|
    ensures |Reversed(s)| == |s| && Reversed(s)[k] == s[|s| - 1 - k]
  {
    if k > 0 {
      ReversedAt(s[..|s| - 1], k - 1);
    } else {
      ReversedLength(s[..|s| - 1]);
    }
  }

  lemma {:induction false} ReversedLength<T>(s: seq<T>)
    ensures |Reversed(s)| == |s|
  {
    if s != [] {
      ReversedLength(s[..|s| - 1]);
    }
  }

  /** A basename is in the table after inserting exactly when the old table or some inserted entry had it. */
  lemma {:induction false} InsertedHas(table: map<string, SheetEntry>, entries: seq<SheetEntry>, b: string)
    ensures b in Inserted(table, entries) <==> b in table || exists k :: 0 <= k < |entries| && entries[k].basename == b
  {
    if entries != [] {
      var n := |entries| - 1;
      var init := entries[..n];
      InsertedHas(table, init, b);
      if b in Inserted(table, init) && b !in table {
        var k :| 0 <= k < |init| && init[k].basename == b;
        assert entries[k] == init[k];
      }
      if exists k :: 0 <= k < |entries| && entries[k].basename == b {
        var k :| 0 <= k < |entries| && entries[k].basename == b;
        if k < n {
          assert init[k] == entries[k];
        }
      }
    }
  }

  /** Inserting entries that do not carry `b` leaves what the table files under `b` alone. */
  lemma {:induction false} InsertedElsewhere(table: map<string, SheetEntry>, entries: seq<SheetEntry>, b: string)
    requires b in table
    requires forall k :: 0 <= k < |entries| ==> entries[k].basename != b
    ensures b in Inserted(table, entries) && Inserted(table, entries)[b] == table[b]
  {
    if entries != [] {
      var n := |entries| - 1;
      InsertedElsewhere(table, entries[..n], b);
    }
  }

  /**
   * Last-scanned wins: the table files a basename under the last inserted
   * entry that carries it.
   */
  lemma {:induction false} InsertedLastWins(table: map<string, SheetEntry>, entries: seq<SheetEntry>, j: nat)
    requires j < |entries|
    requires forall k :: j < k < |entries| ==> entries[k].basename != entries[j].basename
    ensures entries[j].basename in Inserted(table, entries)
    ensures Inserted(table, entries)[entries[j].basename] == entries[j]
  {
    var n := |entries| - 1;
    if j < n {
      var init := entries[..n];
      assert init[j] == entries[j];
      InsertedLastWins(table, init, j);
    }
  }

  /**
   * A lookup after a scan finds the last scanned entry with that basename,
   * as the hash table's insert replaces an earlier entry.
   */
  lemma FindAfterScanLaterWins(index: Index, table: map<string, SheetEntry>, entries: seq<SheetEntry>, j: nat)
    requires index.Valid() && index.byBasename == Inserted(table, entries)
    requires j < |entries|
    requires forall k :: j < k < |entries| ==> entries[k].basename != entries[j].basename
    ensures index.Find(entries[j].basename) == Some(entries[j])
  {
    InsertedLastWins(table, entries, j);
  }

  /** A scan never loses a basename that was already in the table. */
  lemma ScanKeepsBasenames(table: map<string, SheetEntry>, entries: seq<SheetEntry>, b: string)
    requires b in table
    ensures b in Inserted(table, entries)
  {
    InsertedHas(table, entries, b);
  }

  lemma ScannedPair(dir: string, a: string, b: string)
    ensures Scanned(dir, [a, b]) ==
      (if IsSheetFile(a) then [EntryFor(dir, a)] else []) + (if IsSheetFile(b) then [EntryFor(dir, b)] else [])
  {
    assert [a, b][..1] == [a];
    assert [a][..0] == [];
    assert Scanned(dir, []) == [];
    assert Scanned(dir, [a]) == [] + (if IsSheetFile(a) then [EntryFor(dir, a)] else []);
  }

  lemma VimUpper()
    ensures IsSheetFile("Vim.pdf") && EntryFor("/s", "Vim.pdf") == SheetEntry("/s/Vim.pdf", "vim")
  {
    assert "Vim.pdf"[3..] == ".pdf";
    assert "Vim.pdf"[..3] == "Vim";
    assert Lower("Vim") == "vim";
  }

  lemma VimLower()
    ensures IsSheetFile("vim.pdf") && EntryFor("/s", "vim.pdf") == SheetEntry("/s/vim.pdf", "vim")
  {
    assert "vim.pdf"[3..] == ".pdf";
    assert "vim.pdf"[..3] == "vim";
    assert Lower("vim") == "vim";
  }

  /** The scan of "Vim.pdf" then "vim.pdf" creates two entries under the same key. */
  lemma VimScanned()
    ensures Scanned("/s", ["Vim.pdf", "vim.pdf"]) == [SheetEntry("/s/Vim.pdf", "vim"), SheetEntry("/s/vim.pdf", "vim")]
  {
    VimUpper();
    VimLower();
    ScannedPair("/s", "Vim.pdf", "vim.pdf");
  }

  /** Two files whose names differ only in case: both are listed, the later one is found. */
  lemma DuplicateBasenameLaterWins()
    ensures var entries := Scanned("/s", ["Vim.pdf", "vim.pdf"]);
      && Reversed(entries) == [SheetEntry("/s/vim.pdf", "vim"), SheetEntry("/s/Vim.pdf", "vim")]
      && "vim" in Inserted(map[], entries)
      && Inserted(map[], entries)["vim"] == SheetEntry("/s/vim.pdf", "vim")
  {
    var first := SheetEntry("/s/Vim.pdf", "vim");
    var second := SheetEntry("/s/vim.pdf", "vim");
    VimScanned();
    var entries := [first, second];
    assert entries[..1] == [first];
    assert entries[..1][..0] == [];
    InsertedLastWins(map[], entries, 1);
  }

  /** "MyApp.pdf" is found under "myapp" but not under "MyApp"; "notes.PDF" is not indexed. */
  lemma LookupIsExact()
    ensures var entries := Scanned("/s", ["MyApp.pdf", "notes.PDF"]);
      && entries == [SheetEntry("/s/MyApp.pdf", "myapp")]
      && "myapp" in Inserted(map[], entries)
      && "MyApp" !in Inserted(map[], entries)
  {
    var entry := SheetEntry("/s/MyApp.pdf", "myapp");
    assert IsSheetFile("MyApp.pdf") by {
      assert "MyApp.pdf"[5..] == ".pdf";
    }
    assert EntryFor("/s", "MyApp.pdf") == entry by {
      assert "MyApp.pdf"[..5] == "MyApp";
      assert Lower("MyApp") == "myapp";
    }
    assert !IsSheetFile("notes.PDF") by {
      assert "notes.PDF"[5..] == ".PDF";
    }
    ScannedPair("/s", "MyApp.pdf", "notes.PDF");
    assert [entry][..0] == [];
  }
}
