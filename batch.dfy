/** The batch over an input directory (lines 83-114) and the whole run started
    from the window (lines 220-236): every file whose name ends in ".ifc", in
    any letter case, is converted into a CSV named after it, in the output
    folder that mirrors the file's folder; a file that cannot be read is
    reported and the batch goes on. Then the converted tables are combined and
    validated. */
module Batch {
  import opened Wrappers
  import opened Schema
  import opened Extraction
  import opened Consolidation
  import opened Validation

  /** `str.lower()` on one character, for the ASCII letters. */
  function LowerChar(c: char): char {
    if 'A' <= c <= 'Z' then (c as int + 32) as char else c
  }

  /** `f.lower().endswith(".ifc")`: lowering works character by character and
      keeps the length, so the test accepts exactly the names whose last four
      characters are a dot and the letters i, f, c in either case. */
  function IsIfcFile(name: string): (b: bool)
    ensures b <==>
      |name| >= 4 && name[|name| - 4] == '.'
      && (name[|name| - 3] == 'i' || name[|name| - 3] == 'I')
      && (name[|name| - 2] == 'f' || name[|name| - 2] == 'F')
      && (name[|name| - 1] == 'c' || name[|name| - 1] == 'C')
  {
    var n := |name|;
    n >= 4 && LowerChar(name[n - 4]) == '.' && LowerChar(name[n - 3]) == 'i'
      && LowerChar(name[n - 2]) == 'f' && LowerChar(name[n - 1]) == 'c'
  }

  /** Position of the last occurrence of `c` in `s`, if any (`str.rfind`). */
  function LastIndex(s: string, c: char): (r: Option<nat>)
    ensures r.None? ==> c !in s
    ensures r.Some? ==> r.value < |s| && s[r.value] == c && c !in s[r.value + 1..]
  {
    if s == [] then None
    else if s[|s| - 1] == c then Some(|s| - 1)
    else
      var r := LastIndex(s[..|s| - 1], c);
      assert s[..|s| - 1] + [s[|s| - 1]] == s;
      if r.Some? then
        assert s[r.value + 1..] == s[..|s| - 1][r.value + 1..] + [s[|s| - 1]];
        r
      else r
  }

  /** `os.path.splitext(name)[0]` for a bare file name: everything before the
      last dot, unless only dots come before it (a name like ".ifc" has no
      extension). */
  function Stem(name: string): (stem: string)
    ensures stem <= name
    ensures stem != name ==> name[|stem|] == '.' && '.' !in name[|stem| + 1..]
    ensures stem != name ==> exists i :: 0 <= i < |stem| && stem[i] != '.'
  {
    match LastIndex(name, '.')
    case None => name
    case Some(dot) =>
      if forall i :: 0 <= i < dot ==> name[i] == '.' then name
      else
        assert name[..dot] <= name;
        name[..dot]
  }

  /** Line 102: the CSV's file name, a prefix of the IFC file's name followed
      by ".csv". */
  function CsvName(name: string): (csv: string)
    ensures |csv| >= 4 && csv[|csv| - 4..] == ".csv" && csv[..|csv| - 4] <= name
  {
    var csv := Stem(name) + ".csv";
    assert csv[..|csv| - 4] == Stem(name);
    csv
  }

  /** Two names that differ only in the case of the extension share a CSV name. */
  lemma ExtensionCaseCollides()
    ensures IsIfcFile("a.ifc") && IsIfcFile("a.IFC")
    ensures CsvName("a.ifc") == CsvName("a.IFC") == "a.csv"
  {
    CsvNameOfIfc("a.ifc");
    CsvNameOfIfc("a.IFC");
    assert "a.ifc"[0] != '.' && "a.IFC"[0] != '.';
    assert "a.ifc"[..1] == "a.IFC"[..1] == "a";
  }

  /** The extension's dot is the last dot of an IFC file's name. */
  lemma LastDotOfIfc(name: string)
    requires IsIfcFile(name)
    ensures LastIndex(name, '.') == Some(|name| - 4)
  {
  }

  /** For a name the batch picks up, the CSV name replaces the four-character
      extension, keeping its case-insensitive stem; a name with nothing but dots
      before the extension keeps it and gains ".csv". */
  lemma CsvNameOfIfc(name: string)
    requires IsIfcFile(name)
    ensures (exists i :: 0 <= i < |name| - 4 && name[i] != '.') ==> CsvName(name) == name[..|name| - 4] + ".csv"
    ensures (forall i :: 0 <= i < |name| - 4 ==> name[i] == '.') ==> CsvName(name) == name + ".csv"
  {
    LastDotOfIfc(name);
  }

  /** One file seen by the walk: its folder relative to the input directory
      (`os.path.relpath(root, input_dir)`, "." for the directory itself) and its name. */
  datatype Entry = Entry(folder: string, name: string)

  /** Line 86: the files to process, in the order of the walk. */
  function IfcFiles(entries: seq<Entry>): (files: seq<Entry>)
    ensures |files| <= |entries|
  {
    if entries == [] then []
    else
      var prefix := entries[..|entries| - 1];
      var last := entries[|entries| - 1];
      assert entries == prefix + [last];
      IfcFiles(prefix) + (if IsIfcFile(last.name) then [last] else [])
  }

  /** The files to process are exactly the entries with an IFC name. */
  lemma {:induction false} IfcFilesMembers(entries: seq<Entry>, e: Entry)
    ensures e in IfcFiles(entries) <==> e in entries && IsIfcFile(e.name)
    decreases |entries|
  {
    if entries != [] {
      var prefix := entries[..|entries| - 1];
      IfcFilesMembers(prefix, e);
      assert entries == prefix + [entries[|entries| - 1]];
    }
  }

  /** The filter keeps the walk's order: the files of a listing split in two are
      those of the first part followed by those of the second. */
  lemma {:induction false} IfcFilesAppend(a: seq<Entry>, b: seq<Entry>)
    ensures IfcFiles(a + b) == IfcFiles(a) + IfcFiles(b)
    decreases |b|
  {
    if b == [] {
      assert a + b == a;
    } else {
      var n := |b| - 1;
      assert (a + b)[..|a + b| - 1] == a + b[..n];
      IfcFilesAppend(a, b[..n]);
    }
  }

  /** What happened to one file: converted into a table saved as `csvName` in
      the output folder mirroring `folder`, or reported with the reader's error. */
  datatype FileOutcome =
    | Converted(folder: string, csvName: string, table: Table)
    | Failed(folder: string, name: string, reason: string)

  /** The batch either stops at once, when no file qualifies, or lists one
      outcome per qualifying file. */
  datatype BatchResult = NoIfcFiles | Processed(outcomes: seq<FileOutcome>)

  /** A file the IFC reader opens and none of whose elements raises. */
  predicate Readable(file: Entry, load: Entry -> Result<seq<Element>>, selected: set<string>) {
    load(file).Success? && forall i :: 0 <= i < |load(file).value| ==> !Raises(load(file).value[i], selected)
  }

  /** Lines 96-114 for one file; `load` stands for opening the file with the IFC
      reader and listing its IfcElement instances, which may raise. */
  function OutcomeOf(file: Entry, load: Entry -> Result<seq<Element>>, selected: set<string>): FileOutcome {
    match load(file)
    case Failure(reason) => Failed(file.folder, file.name, reason)
    case Success(elements) =>
      match ExtractAsWritten(elements, selected)
      case Failure(reason) => Failed(file.folder, file.name, reason)
      case Success(table) => Converted(file.folder, CsvName(file.name), table)
  }

  /** A file is converted exactly when it is readable, into the table of its
      elements under its CSV name; otherwise its error is reported. */
  lemma OutcomeOfIff(file: Entry, load: Entry -> Result<seq<Element>>, selected: set<string>)
    ensures var o := OutcomeOf(file, load, selected);
      && (o.Converted? <==> Readable(file, load, selected))
      && (o.Converted? ==>
        o.folder == file.folder && o.csvName == CsvName(file.name) && o.table == FileTable(load(file).value, selected))
      && (o.Failed? ==> o.folder == file.folder && o.name == file.name)
  {
    if load(file).Success? {
      var elements := load(file).value;
      assert ExtractAsWritten(elements, selected).Failure? <==>
        exists i :: 0 <= i < |elements| && Raises(elements[i], selected);
    }
  }

  /** One outcome per file, in order. */
  function Outcomes(files: seq<Entry>, load: Entry -> Result<seq<Element>>, selected: set<string>): (os: seq<FileOutcome>)
    ensures |os| == |files|
  {
    if files == [] then []
    else Outcomes(files[..|files| - 1], load, selected) + [OutcomeOf(files[|files| - 1], load, selected)]
  }

  /** The filter finds nothing exactly when no entry has an IFC name. */
  lemma IfcFilesEmpty(entries: seq<Entry>)
    ensures IfcFiles(entries) == [] <==> forall i :: 0 <= i < |entries| ==> !IsIfcFile(entries[i].name)
  {
    if IfcFiles(entries) == [] {
      forall i | 0 <= i < |entries|
        ensures !IsIfcFile(entries[i].name)
      {
        IfcFilesMembers(entries, entries[i]);
      }
    } else {
      var f := IfcFiles(entries)[0];
      IfcFilesMembers(entries, f);
    }
  }

  /** Lines 84-114: the batch stops at once exactly when no entry has an IFC
      name, and otherwise gives one outcome per IFC file. */
  function Process(entries: seq<Entry>, load: Entry -> Result<seq<Element>>, selected: set<string>): (r: BatchResult)
    ensures r.NoIfcFiles? <==> forall i :: 0 <= i < |entries| ==> !IsIfcFile(entries[i].name)
    ensures r.Processed? ==> |r.outcomes| == |IfcFiles(entries)|
  {
    var files := IfcFiles(entries);
    IfcFilesEmpty(entries);
    if files == [] then NoIfcFiles else Processed(Outcomes(files, load, selected))
  }

  /** The outcome of the i-th file depends on that file alone: a file that
      fails does not stop or change the others. */
  lemma {:induction false} OutcomeAt(files: seq<Entry>, load: Entry -> Result<seq<Element>>, selected: set<string>, i: nat)
    requires i < |files|
    ensures Outcomes(files, load, selected)[i] == OutcomeOf(files[i], load, selected)
    decreases |files|
  {
    var n := |files| - 1;
    var prior := Outcomes(files[..n], load, selected);
    assert Outcomes(files, load, selected) == prior + [OutcomeOf(files[n], load, selected)];
    if i < n {
      OutcomeAt(files[..n], load, selected, i);
      assert files[..n][i] == files[i];
    }
  }

  /** One more entry of the walk adds the outcome of that entry when it is an
      IFC file, and nothing otherwise. */
  lemma OutcomesStep(seen: seq<Entry>, entry: Entry, load: Entry -> Result<seq<Element>>, selected: set<string>)
    ensures Outcomes(IfcFiles(seen + [entry]), load, selected) ==
      Outcomes(IfcFiles(seen), load, selected) + (if IsIfcFile(entry.name) then [OutcomeOf(entry, load, selected)] else [])
  {
    IfcFilesAppend(seen, [entry]);
    assert [entry][..0] == [];
    if IsIfcFile(entry.name) {
      assert IfcFiles([entry]) == [entry];
      var files := IfcFiles(seen) + [entry];
      assert files[..|files| - 1] == IfcFiles(seen);
    } else {
      assert IfcFiles([entry]) == [];
      assert IfcFiles(seen) + [] == IfcFiles(seen);
    }
  }

  lemma OutcomesPrefix(entries: seq<Entry>, i: nat, load: Entry -> Result<seq<Element>>, selected: set<string>)
    requires i < |entries|
    ensures Outcomes(IfcFiles(entries[..i + 1]), load, selected) ==
      Outcomes(IfcFiles(entries[..i]), load, selected)
        + (if IsIfcFile(entries[i].name) then [OutcomeOf(entries[i], load, selected)] else [])
  {
    var seen, entry := entries[..i], entries[i];
    assert entries[..i + 1] == seen + [entry];
    OutcomesStep(seen, entry, load, selected);
  }

  /** Lines 97-114 for one file: name the CSV, read the file and extract its
      table, or keep the reader's error. */
  method ProcessFile(entry: Entry, load: Entry -> Result<seq<Element>>, selected: set<string>)
    returns (outcome: FileOutcome)
    ensures outcome == OutcomeOf(entry, load, selected)
  {
    var csvName := CsvName(entry.name);
    match load(entry)
    case Failure(reason) =>
      outcome := Failed(entry.folder, entry.name, reason);
    case Success(elements) =>
      var extracted := ExtractFile(elements, selected);
      match extracted
      case Failure(reason) =>
        outcome := Failed(entry.folder, entry.name, reason);
      case Success(table) =>
        outcome := Converted(entry.folder, csvName, table);
  }

  /** Lines 93-114: the second walk, converting each IFC file it meets. */
  method ProcessFiles(entries: seq<Entry>, load: Entry -> Result<seq<Element>>, selected: set<string>)
    returns (outcomes: seq<FileOutcome>)
    ensures outcomes == Outcomes(IfcFiles(entries), load, selected)
  {
    outcomes := [];
    var fileCount := 0;
    for i := 0 to |entries|
      invariant outcomes == Outcomes(IfcFiles(entries[..i]), load, selected)
      invariant fileCount == |outcomes|
    {
      var entry := entries[i];
      if IsIfcFile(entry.name) {
        fileCount := fileCount + 1;
        var outcome := ProcessFile(entry, load, selected);
        outcomes := outcomes + [outcome];
      }
      OutcomesPrefix(entries, i, load, selected);
    }
    assert entries[..|entries|] == entries;
  }

  /** Lines 84-114: stop when the first walk finds no IFC file, otherwise convert
      them all. */
  method ProcessDirectory(entries: seq<Entry>, load: Entry -> Result<seq<Element>>, selected: set<string>)
    returns (result: BatchResult)
    ensures result == Process(entries, load, selected)
  {
    var totalFiles := |IfcFiles(entries)|;
    if totalFiles == 0 {
      return NoIfcFiles;
    }
    var outcomes := ProcessFiles(entries, load, selected);
    result := Processed(outcomes);
  }

  /** The tables that were written, in the order they were written. */
  function ConvertedTables(outcomes: seq<FileOutcome>): (tables: seq<Table>)
    ensures |tables| <= |outcomes|
  {
    if outcomes == [] then []
    else
      var last := outcomes[|outcomes| - 1];
      ConvertedTables(outcomes[..|outcomes| - 1]) + (if last.Converted? then [last.table] else [])
  }

  /** Number of IfcElement instances over the files that were converted. */
  function ElementCount(files: seq<Entry>, load: Entry -> Result<seq<Element>>, selected: set<string>): nat {
    if files == [] then 0
    else
      var last := files[|files| - 1];
      ElementCount(files[..|files| - 1], load, selected) + (if Readable(last, load, selected) then |load(last).value| else 0)
  }

  lemma ConvertedStep(prior: seq<FileOutcome>, o: FileOutcome)
    ensures TotalRows(ConvertedTables(prior + [o])) ==
      TotalRows(ConvertedTables(prior)) + (if o.Converted? then |o.table.rows| else 0)
  {
    var outcomes := prior + [o];
    assert outcomes[..|outcomes| - 1] == prior;
    var tables := ConvertedTables(outcomes);
    if o.Converted? {
      assert tables == ConvertedTables(prior) + [o.table];
      assert tables[..|tables| - 1] == ConvertedTables(prior);
    } else {
      assert tables == ConvertedTables(prior);
    }
  }

  /** Every element of every converted file gives one row, and no other row is
      written. */
  lemma {:induction false} ConvertedRows(files: seq<Entry>, load: Entry -> Result<seq<Element>>, selected: set<string>)
    ensures TotalRows(ConvertedTables(Outcomes(files, load, selected))) == ElementCount(files, load, selected)
    decreases |files|
  {
    if files != [] {
      var n := |files| - 1;
      ConvertedRows(files[..n], load, selected);
      var o := OutcomeOf(files[n], load, selected);
      ConvertedStep(Outcomes(files[..n], load, selected), o);
      assert Outcomes(files, load, selected) == Outcomes(files[..n], load, selected) + [o];
      OutcomeOfIff(files[n], load, selected);
      if o.Converted? {
        assert |o.table.rows| == |load(files[n]).value|;
      }
    }
  }

  /** A CSV file left in the output tree: its folder, its name and its table. */
  datatype CsvFile = CsvFile(folder: string, name: string, table: Table)

  predicate SamePath(f: CsvFile, folder: string, name: string) {
    f.folder == folder && f.name == name
  }

  /** No two files share a path. */
  predicate DistinctPaths(files: seq<CsvFile>) {
    forall i, j :: 0 <= i < j < |files| ==> !SamePath(files[j], files[i].folder, files[i].name)
  }

  /** The files other than the one at the given path. */
  function Drop(files: seq<CsvFile>, folder: string, name: string): (r: seq<CsvFile>)
    ensures forall f :: f in r <==> f in files && !SamePath(f, folder, name)
  {
    if files == [] then []
    else
      var rest := Drop(files[1..], folder, name);
      assert forall f :: f in files <==> f == files[0] || f in files[1..];
      if SamePath(files[0], folder, name) then rest else [files[0]] + rest
  }

  lemma {:induction false} DropDistinct(files: seq<CsvFile>, folder: string, name: string)
    requires DistinctPaths(files)
    ensures DistinctPaths(Drop(files, folder, name))
  {
    if files != [] {
      var rest := Drop(files[1..], folder, name);
      DropDistinct(files[1..], folder, name);
      if !SamePath(files[0], folder, name) {
        var r := [files[0]] + rest;
        forall i, j | 0 <= i < j < |r|
          ensures !SamePath(r[j], r[i].folder, r[i].name)
        {
          if i == 0 {
            assert r[j] in files[1..];
          } else {
            assert r[i] == rest[i - 1] && r[j] == rest[j - 1];
          }
        }
      }
    }
  }

  lemma {:induction false} DropAbsent(files: seq<CsvFile>, folder: string, name: string)
    requires forall f :: f in files ==> !SamePath(f, folder, name)
    ensures Drop(files, folder, name) == files
  {
    if files != [] {
      DropAbsent(files[1..], folder, name);
      assert files == [files[0]] + files[1..];
    }
  }

  /** Lines 102-112 over the whole batch: each converted file writes its table
      to the CSV path of its folder and CSV name, replacing any file already
      there; a file that fails writes nothing. The result lists the files left
      at the end, in the order of their last write. Every file was written by
      some converted outcome, and no two files share a path. */
  function Written(outcomes: seq<FileOutcome>): (files: seq<CsvFile>)
    ensures DistinctPaths(files)
    ensures forall f :: f in files ==>
      exists k :: 0 <= k < |outcomes| && outcomes[k] == Converted(f.folder, f.name, f.table)
  {
    if outcomes == [] then []
    else
      var prefix, last := outcomes[..|outcomes| - 1], outcomes[|outcomes| - 1];
      var prior := Written(prefix);
      assert forall k :: 0 <= k < |prefix| ==> prefix[k] == outcomes[k];
      if last.Converted? then
        var kept := Drop(prior, last.folder, last.csvName);
        DropDistinct(prior, last.folder, last.csvName);
        var files := kept + [CsvFile(last.folder, last.csvName, last.table)];
        assert forall f :: f in files ==> f in prior || f == files[|files| - 1];
        files
      else prior
  }

  /** The last write to a path is the file found there. */
  lemma {:induction false} WrittenLastWins(outcomes: seq<FileOutcome>, k: nat)
    requires k < |outcomes| && outcomes[k].Converted?
    requires forall j :: k < j < |outcomes| && outcomes[j].Converted? ==>
      !(outcomes[j].folder == outcomes[k].folder && outcomes[j].csvName == outcomes[k].csvName)
    ensures CsvFile(outcomes[k].folder, outcomes[k].csvName, outcomes[k].table) in Written(outcomes)
    decreases |outcomes|
  {
    var n := |outcomes| - 1;
    var prefix := outcomes[..n];
    if k < n {
      assert forall j :: k < j < |prefix| ==> prefix[j] == outcomes[j];
      WrittenLastWins(prefix, k);
    }
  }

  /** The table a path holds at the end is the one its last write wrote. */
  lemma WrittenAt(outcomes: seq<FileOutcome>, f: CsvFile, k: nat)
    requires f in Written(outcomes)
    requires k < |outcomes| && outcomes[k].Converted?
    requires outcomes[k].folder == f.folder && outcomes[k].csvName == f.name
    requires forall j :: k < j < |outcomes| && outcomes[j].Converted? ==>
      !(outcomes[j].folder == f.folder && outcomes[j].csvName == f.name)
    ensures f.table == outcomes[k].table
  {
    var files := Written(outcomes);
    WrittenLastWins(outcomes, k);
    var g := CsvFile(outcomes[k].folder, outcomes[k].csvName, outcomes[k].table);
    var i :| 0 <= i < |files| && files[i] == f;
    var j :| 0 <= j < |files| && files[j] == g;
    assert i == j;
  }

  /** A later write to the same path replaces the earlier table. */
  lemma LaterWriteReplaces(first: Table, second: Table)
    ensures Written([Converted(".", "a.csv", first), Converted(".", "a.csv", second)]) == [CsvFile(".", "a.csv", second)]
  {
    var outcomes := [Converted(".", "a.csv", first), Converted(".", "a.csv", second)];
    assert outcomes[..1] == [Converted(".", "a.csv", first)];
    assert outcomes[..1][..0] == [];
    var once := [CsvFile(".", "a.csv", first)];
    assert Written(outcomes[..1]) == once;
    assert Drop(once, ".", "a.csv") == [];
  }

  /** The tables of the files, in order. */
  function Tables(files: seq<CsvFile>): (tables: seq<Table>)
    ensures |tables| == |files|
    ensures forall i :: 0 <= i < |files| ==> tables[i] == files[i].table
  {
    seq(|files|, i requires 0 <= i < |files| => files[i].table)
  }

  lemma TablesAppend(files: seq<CsvFile>, file: CsvFile)
    ensures Tables(files + [file]) == Tables(files) + [file.table]
  {
    var r := Tables(files + [file]);
    assert forall i :: 0 <= i < |files| ==> r[i] == (files + [file])[i].table == files[i].table;
  }

  /** No two IFC files of one folder are given the same CSV name. */
  predicate NoCollision(files: seq<Entry>) {
    forall i, j :: 0 <= i < j < |files| && files[i].folder == files[j].folder ==>
      CsvName(files[i].name) != CsvName(files[j].name)
  }

  /** One more outcome: a converted file replaces the file at its path. */
  lemma WrittenStep(prior: seq<FileOutcome>, o: FileOutcome)
    ensures Written(prior + [o]) ==
      if o.Converted? then Drop(Written(prior), o.folder, o.csvName) + [CsvFile(o.folder, o.csvName, o.table)]
      else Written(prior)
  {
    var outcomes := prior + [o];
    assert outcomes[..|outcomes| - 1] == prior;
  }

  lemma ConvertedTablesStep(prior: seq<FileOutcome>, o: FileOutcome)
    ensures ConvertedTables(prior + [o]) == ConvertedTables(prior) + if o.Converted? then [o.table] else []
  {
    var outcomes := prior + [o];
    assert outcomes[..|outcomes| - 1] == prior;
  }

  /** Without a collision, no earlier file sits at the path of the next one. */
  lemma NoEarlierAtPath(files: seq<Entry>, load: Entry -> Result<seq<Element>>, selected: set<string>, o: FileOutcome)
    requires NoCollision(files) && files != []
    requires o == OutcomeOf(files[|files| - 1], load, selected) && o.Converted?
    ensures forall f :: f in Written(Outcomes(files[..|files| - 1], load, selected)) ==> !SamePath(f, o.folder, o.csvName)
  {
    var n := |files| - 1;
    var prefix := files[..n];
    var prior := Outcomes(prefix, load, selected);
    OutcomeOfIff(files[n], load, selected);
    forall f | f in Written(prior)
      ensures !SamePath(f, o.folder, o.csvName)
    {
      var k :| 0 <= k < |prior| && prior[k] == Converted(f.folder, f.name, f.table);
      OutcomeAt(prefix, load, selected, k);
      OutcomeOfIff(prefix[k], load, selected);
      assert prefix[k] == files[k];
    }
  }

  /** Without a collision, every converted table stays on disk, in the order
      the batch wrote them. */
  lemma {:induction false} WrittenWithoutCollision(files: seq<Entry>, load: Entry -> Result<seq<Element>>, selected: set<string>)
    requires NoCollision(files)
    ensures Tables(Written(Outcomes(files, load, selected))) == ConvertedTables(Outcomes(files, load, selected))
    decreases |files|
  {
    if files != [] {
      var n := |files| - 1;
      var prefix := files[..n];
      assert NoCollision(prefix) by {
        assert forall i :: 0 <= i < n ==> prefix[i] == files[i];
      }
      WrittenWithoutCollision(prefix, load, selected);
      var prior := Outcomes(prefix, load, selected);
      var o := OutcomeOf(files[n], load, selected);
      var outcomes := Outcomes(files, load, selected);
      assert outcomes == prior + [o];
      WrittenStep(prior, o);
      ConvertedTablesStep(prior, o);
      var before := Written(prior);
      if o.Converted? {
        NoEarlierAtPath(files, load, selected, o);
        DropAbsent(before, o.folder, o.csvName);
        var file := CsvFile(o.folder, o.csvName, o.table);
        assert Written(outcomes) == before + [file];
        TablesAppend(before, file);
        assert ConvertedTables(outcomes) == ConvertedTables(prior) + [o.table];
      } else {
        assert Written(outcomes) == before;
        assert ConvertedTables(outcomes) == ConvertedTables(prior);
      }
    }
  }

  /** What pressing the start button leads to. */
  datatype Run =
    | MissingDirectory
    | Finished(batch: BatchResult, sheet: Sheet, validation: Outcome)

  /** Lines 220-236: both directories must be chosen; then the batch runs, and
      the CSV files it left are combined and validated. The combination reads
      them in the order of their last write. The run stops exactly when a
      directory is missing; otherwise the sheet has one row per element of each
      converted IFC file, as long as no two IFC files of a folder share a CSV
      name. */
  function StartProcessing(inputDir: string, outputDir: string, entries: seq<Entry>,
    load: Entry -> Result<seq<Element>>, selected: set<string>): (run: Run)
    ensures run.MissingDirectory? <==> inputDir == "" || outputDir == ""
    ensures run.Finished? ==> run.batch == Process(entries, load, selected) && run.validation == Validate(run.sheet)
    ensures run.Finished? && NoCollision(IfcFiles(entries)) ==>
      |run.sheet.body| == ElementCount(IfcFiles(entries), load, selected)
  {
    if inputDir == "" || outputDir == "" then MissingDirectory
    else
      var batch := Process(entries, load, selected);
      var written := if batch.Processed? then Written(batch.outcomes) else [];
      var sheet := Combined(Tables(written));
      var files := IfcFiles(entries);
      ConvertedRows(files, load, selected);
      if NoCollision(files) then
        WrittenWithoutCollision(files, load, selected);
        Finished(batch, sheet, Validate(sheet))
      else Finished(batch, sheet, Validate(sheet))
  }

  /** Whatever order the output directory's walk meets the CSV files in, the
      sheet has the same header and the same number of rows. */
  lemma SheetRows(inputDir: string, outputDir: string, entries: seq<Entry>,
    load: Entry -> Result<seq<Element>>, selected: set<string>, read: seq<Table>)
    requires StartProcessing(inputDir, outputDir, entries, load, selected).Finished?
    requires multiset(read) == multiset(Tables(Written(Outcomes(IfcFiles(entries), load, selected))))
    ensures |Combined(read).body| == |StartProcessing(inputDir, outputDir, entries, load, selected).sheet.body|
    ensures Combined(read).header == StartProcessing(inputDir, outputDir, entries, load, selected).sheet.header
  {
    var files := IfcFiles(entries);
    var tables := Tables(Written(Outcomes(files, load, selected)));
    RowCountIgnoresSourceOrder(read, tables);
    HeaderIgnoresSourceOrder(read, tables);
  }
}
