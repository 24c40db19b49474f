/**
 * The observation summary table (class ObsTable in utils/obstable.py): an ordered,
 * growing list of records with a cached length, read from and written to a text
 * file whose first line is a '#' title bar and whose other lines are print_record
 * lines.
 *
 * The file system is a `Disk` object mapping each existing path to its text.
 */
module ObsTables {
  import opened Wrappers
  import opened PyText
  import opened ObsRecords

  /** The table's title bar: '#', a space, then the column names separated by tabs. */
  const TitleBar: string := "# " + Joined(TitleColumns, TitleSeps)

  const TitleColumns: seq<string> :=
    ["Targetname", "rootname", "band", "grism", "datatype", "applyto", "filerange", "exptime", "LNRS", "rdmode"]

  /** A double tab after the first column, single tabs after the others. */
  const TitleSeps: seq<string> := ["\t\t", "\t", "\t", "\t", "\t", "\t", "\t", "\t", "\t"]

  /** `line.startswith('#')`. */
  predicate IsComment(line: string) {
    |line| > 0 && line[0] == '#'
  }

  /** The records one file line contributes to read_table: none for a comment or a line
      read_record rejects, otherwise the parsed record. */
  function LineRecords(line: string): seq<ObsRecord> {
    if IsComment(line) then []
    else
      var r := ReadRecord(line);
      if r.Success? then [r.value] else []
  }

  /** What read_table loads from the lines of a file. */
  function LoadRecords(lines: seq<string>): (recs: seq<ObsRecord>)
    ensures |recs| <= |lines|
  {
    if lines == [] then [] else LineRecords(lines[0]) + LoadRecords(lines[1..])
  }

  /** Loading is line by line: the records of two blocks of lines are the two loads, in order. */
  lemma {:induction false} LoadRecordsAppend(a: seq<string>, b: seq<string>)
    ensures LoadRecords(a + b) == LoadRecords(a) + LoadRecords(b)
    decreases |a|
  {
    if a == [] {
      assert a + b == b;
    } else {
      assert (a + b)[1..] == a[1..] + b;
      LoadRecordsAppend(a[1..], b);
    }
  }

  /** Every loaded record comes from a non-comment line that read_record accepts. */
  lemma {:induction false} LoadedRecordsComeFromLines(lines: seq<string>, k: nat)
    requires k < |LoadRecords(lines)|
    ensures exists i :: 0 <= i < |lines| && !IsComment(lines[i]) && ReadRecord(lines[i]) == Success(LoadRecords(lines)[k])
    ensures Serialisable(LoadRecords(lines)[k])
    decreases |lines|
  {
    var first := LineRecords(lines[0]);
    if k < |first| {
      assert !IsComment(lines[0]) && ReadRecord(lines[0]) == Success(LoadRecords(lines)[k]);
      ReadRecordValues(lines[0]);
    } else {
      LoadedRecordsComeFromLines(lines[1..], k - |first|);
      var i :| 0 <= i < |lines[1..]| && !IsComment(lines[1..][i]) &&
               ReadRecord(lines[1..][i]) == Success(LoadRecords(lines[1..])[k - |first|]);
      assert lines[1..][i] == lines[i + 1];
    }
  }

  /** The lines print_table and write_table emit after the title bar: each item printed by
      `line` and followed by "\n", up to the first item `line` fails on. */
  function Rendered<T>(items: seq<T>, line: T -> Result<string>): string {
    if items == [] || line(items[0]).Failure? then ""
    else line(items[0]).value + "\n" + Rendered(items[1..], line)
  }

  predicate AllRendered<T>(items: seq<T>, line: T -> Result<string>) {
    forall i :: 0 <= i < |items| ==> line(items[i]).Success?
  }

  /** Rendering stops at the first item that fails, and is otherwise item by item. */
  lemma {:induction false} RenderedAppend<T>(a: seq<T>, b: seq<T>, line: T -> Result<string>)
    ensures Rendered(a + b, line) == if AllRendered(a, line) then Rendered(a, line) + Rendered(b, line) else Rendered(a, line)
    decreases |a|
  {
    if a == [] {
      assert a + b == b;
    } else {
      assert (a + b)[0] == a[0];
      assert (a + b)[1..] == a[1..] + b;
      RenderedAppend(a[1..], b, line);
      AllRenderedCons(a, line);
    }
  }

  /** A non-empty list renders fully when its head does and its tail renders fully. */
  lemma AllRenderedCons<T>(a: seq<T>, line: T -> Result<string>)
    requires a != []
    ensures AllRendered(a, line) <==> line(a[0]).Success? && AllRendered(a[1..], line)
  {
    if line(a[0]).Success? && AllRendered(a[1..], line) {
      forall i | 0 <= i < |a| ensures line(a[i]).Success? {
        if i > 0 { assert a[i] == a[1..][i - 1]; }
      }
    }
    if AllRendered(a, line) {
      forall i | 0 <= i < |a[1..]| ensures line(a[1..][i]).Success? {
        assert a[1..][i] == a[i + 1];
      }
    }
  }

  /** One more step of a loop that writes `head` and then renders `items` in order. */
  lemma RenderedOneMore<T>(head: string, items: seq<T>, i: nat, line: T -> Result<string>)
    requires i < |items| && AllRendered(items[..i], line)
    ensures line(items[i]).Success? ==>
              && AllRendered(items[..i + 1], line)
              && head + Rendered(items[..i + 1], line) == head + Rendered(items[..i], line) + line(items[i]).value + "\n"
    ensures line(items[i]).Failure? ==>
              && !AllRendered(items, line)
              && head + Rendered(items, line) == head + Rendered(items[..i], line)
  {
    if line(items[i]).Success? {
      RenderedSnoc(head, items, i, line);
    } else {
      assert items == items[..i] + items[i..];
      RenderedAppend(items[..i], items[i..], line);
      assert items[i..][0] == items[i];
    }
  }

  lemma RenderedSnoc<T>(head: string, items: seq<T>, i: nat, line: T -> Result<string>)
    requires i < |items| && AllRendered(items[..i], line) && line(items[i]).Success?
    ensures AllRendered(items[..i + 1], line)
    ensures head + Rendered(items[..i + 1], line) == head + Rendered(items[..i], line) + line(items[i]).value + "\n"
  {
    assert items[..i + 1] == items[..i] + [items[i]];
    RenderedAppend(items[..i], [items[i]], line);
    assert [items[i]][1..] == [];
    forall k | 0 <= k < i ensures line(items[k]).Success? {
      assert items[..i][k] == items[k];
    }
  }

  /** Every record of the list can be printed. */
  predicate AllPrintable(recs: seq<ObsRecord>) {
    forall i :: 0 <= i < |recs| ==> Printable(recs[i])
  }

  lemma AllPrintableRendered(recs: seq<ObsRecord>)
    ensures AllPrintable(recs) <==> AllRendered(recs, PrintRecord)
  {
  }

  /** The complete text of a table: title bar, newline, then the record lines. */
  function TableText(recs: seq<ObsRecord>): string {
    TitleBar + "\n" + Rendered(recs, PrintRecord)
  }

  /** A record the table file carries faithfully: serialisable, and its line does not start
      with '#' (read_table would skip it as a comment). */
  predicate Storable(r: ObsRecord) {
    Serialisable(r) && r.targetname.value[0] != '#'
  }

  lemma TitleBarIsOneCommentLine()
    ensures '\n' !in TitleBar && IsComment(TitleBar + "\n")
  {
    assert forall i :: 0 <= i < |TitleColumns| ==> NoSpace(TitleColumns[i]);
    JoinedHasNoNewline(TitleColumns, TitleSeps);
    assert (TitleBar + "\n")[0] == '#';
  }

  lemma FirstAndRest<T>(s: seq<T>)
    requires s != []
    ensures [s[0]] + s[1..] == s
  {
  }

  lemma LoadOneLine(line: string)
    ensures LoadRecords([line]) == LineRecords(line)
  {
    assert [line][1..] == [];
  }

  lemma LoadOneMore(lines: seq<string>, i: nat)
    requires i < |lines|
    ensures LoadRecords(lines[..i + 1]) == LoadRecords(lines[..i]) + LineRecords(lines[i])
  {
    assert lines[..i + 1] == lines[..i] + [lines[i]];
    LoadRecordsAppend(lines[..i], [lines[i]]);
    LoadOneLine(lines[i]);
  }

  /** What write_table puts in a fresh file: the title bar, a newline, then the record lines. */
  lemma TitleThenRecords(recs: seq<ObsRecord>)
    ensures "" + TitleBar + "\n" + Rendered(recs, PrintRecord) == TableText(recs)
  {
    assert "" + TitleBar == TitleBar;
  }

  /** The first step of rendering. */
  lemma RenderedFirst<T>(items: seq<T>, line: T -> Result<string>)
    requires items != [] && line(items[0]).Success?
    ensures Rendered(items, line) == line(items[0]).value + "\n" + Rendered(items[1..], line)
  {
  }

  /** The line of a storable record, with its newline, loads as that record alone. */
  lemma StoredLine(r: ObsRecord)
    requires Storable(r)
    ensures '\n' !in PrintRecord(r).value
    ensures LineRecords(PrintRecord(r).value + "\n") == [r]
  {
    PrintedRecordIsOneLine(r);
    RoundTrip(r, "\n");
    PrintedRecordStart(r);
  }

  /** The first record line of a table of storable records loads as its record. */
  lemma LoadRenderedFirst(recs: seq<ObsRecord>)
    requires recs != [] && Storable(recs[0])
    ensures LoadRecords(Lines(Rendered(recs, PrintRecord))) == [recs[0]] + LoadRecords(Lines(Rendered(recs[1..], PrintRecord)))
  {
    var line := PrintRecord(recs[0]).value;
    var rest := Rendered(recs[1..], PrintRecord);
    RenderedFirst(recs, PrintRecord);
    StoredLine(recs[0]);
    LinesFirst(line, rest);
    LoadRecordsAppend([line + "\n"], Lines(rest));
    LoadOneLine(line + "\n");
  }

  /** The record lines of a table of storable records read back as exactly those records. */
  lemma {:induction false} RenderedLinesLoad(recs: seq<ObsRecord>)
    requires forall i :: 0 <= i < |recs| ==> Storable(recs[i])
    ensures LoadRecords(Lines(Rendered(recs, PrintRecord))) == recs
    decreases |recs|
  {
    if recs != [] {
      LoadRenderedFirst(recs);
      RenderedLinesLoad(recs[1..]);
      FirstAndRest(recs);
    }
  }

  /** The title bar loads as nothing, so a table file loads as its record lines. */
  lemma TitleBarLoadsNothing(recs: seq<ObsRecord>)
    ensures LoadRecords(Lines(TableText(recs))) == LoadRecords(Lines(Rendered(recs, PrintRecord)))
  {
    TitleBarIsOneCommentLine();
    LinesFirst(TitleBar, Rendered(recs, PrintRecord));
    LoadRecordsAppend([TitleBar + "\n"], Lines(Rendered(recs, PrintRecord)));
    LoadOneLine(TitleBar + "\n");
  }

  /** Writing a table and reading the file back yields the same records in the same order. */
  lemma WriteReadRoundTrip(recs: seq<ObsRecord>)
    requires forall i :: 0 <= i < |recs| ==> Storable(recs[i])
    ensures AllPrintable(recs)
    ensures LoadRecords(Lines(TableText(recs))) == recs
  {
    TitleBarLoadsNothing(recs);
    RenderedLinesLoad(recs);
  }

  /** The line of a record whose target name starts with '#' loads as nothing. */
  lemma HashLineLoadsNothing(r: ObsRecord)
    requires Serialisable(r) && r.targetname.value[0] == '#'
    ensures LoadRecords(Lines(Rendered([r], PrintRecord))) == []
  {
    var line := PrintRecord(r).value;
    RenderedFirst([r], PrintRecord);
    assert [r][1..] == [];
    PrintedRecordIsOneLine(r);
    PrintedRecordStart(r);
    LinesFirst(line, "");
    LoadRecordsAppend([line + "\n"], Lines(""));
    LoadOneLine(line + "\n");
  }

  /** A record whose target name starts with '#' is written but lost on reading back. */
  lemma HashTargetIsLost(r: ObsRecord)
    requires Serialisable(r) && r.targetname.value[0] == '#'
    ensures LoadRecords(Lines(TableText([r]))) == []
  {
    TitleBarLoadsNothing([r]);
    HashLineLoadsNothing(r);
  }

  /** A data line with the wrong number of columns is skipped and loading goes on. */
  lemma MalformedLineIsSkipped(bad: string, r: ObsRecord)
    requires !IsComment(bad) && |Split(bad)| != 10
    requires Storable(r)
    ensures LoadRecords([bad, PrintRecord(r).value + "\n"]) == [r]
  {
    StoredLine(r);
    assert [bad, PrintRecord(r).value + "\n"][1..] == [PrintRecord(r).value + "\n"];
  }

  // ---------------------------------------------------------------------------
  // The table file of utils/tests/test_obstable.py
  // ---------------------------------------------------------------------------

  /** The test's single-tab data line, with its newline, loads as the test record. */
  lemma TestLineLoads()
    ensures '\n' !in TestLine
    ensures LineRecords(TestLine + "\n") == [TestRecord]
  {
    TestLineIsOneLine();
    TestLineNotComment();
    TestLineSplitsWithNewline();
    ReadsTestFields(TestLine + "\n");
  }

  lemma TestLineIsOneLine()
    ensures '\n' !in TestLine
  {
    TestFieldsAreWords();
    JoinedHasNoNewline(TestFields, SingleTabs);
  }

  lemma TestLineNotComment()
    ensures !IsComment(TestLine + "\n")
  {
    assert (TestLine + "\n")[0] == TestFields[0][0];
  }

  lemma TestLineSplitsWithNewline()
    ensures Split(TestLine + "\n") == TestFields
  {
    TestFieldsAreWords();
    SplitJoined(TestFields, SingleTabs, "\n");
  }

  /** A file of a comment line and then the same record line twice loads as that record twice. */
  lemma LoadCommentThenTwice(title: string, line: string, r: ObsRecord)
    requires '\n' !in title && IsComment(title + "\n")
    requires '\n' !in line && LineRecords(line + "\n") == [r]
    ensures LoadRecords(Lines(title + "\n" + (line + "\n" + (line + "\n")))) == [r, r]
  {
    LinesOfThree(title, line);
    LoadThree(title + "\n", line + "\n", r);
  }

  lemma LinesOfThree(title: string, line: string)
    requires '\n' !in title && '\n' !in line
    ensures Lines(title + "\n" + (line + "\n" + (line + "\n"))) == [title + "\n"] + ([line + "\n"] + [line + "\n"])
  {
    LinesTwice(line);
    LinesFirst(title, line + "\n" + (line + "\n"));
  }

  lemma LinesTwice(line: string)
    requires '\n' !in line
    ensures Lines(line + "\n" + (line + "\n")) == [line + "\n"] + [line + "\n"]
  {
    LinesOnce(line);
    LinesFirst(line, line + "\n");
  }

  lemma LinesOnce(line: string)
    requires '\n' !in line
    ensures Lines(line + "\n") == [line + "\n"]
  {
    assert line + "\n" == line + "\n" + "";
    LinesFirst(line, "");
  }

  lemma LoadThree(t: string, l: string, r: ObsRecord)
    requires LineRecords(t) == [] && LineRecords(l) == [r]
    ensures LoadRecords([t] + ([l] + [l])) == [r, r]
  {
    LoadRecordsAppend([t], [l] + [l]);
    LoadRecordsAppend([l], [l]);
    LoadOneLine(t);
    LoadOneLine(l);
  }

  // The lemmas about the tests' file take its text as a parameter fixed by `requires`, which
  // keeps the literal out of the solver's view until the lemma's own steps need it.

  /** The file the tests write by hand (the title bar and two single-tab data lines) reads as
      two copies of the test record. */
  lemma TestFileLoads(text: string)
    requires text == TitleBar + "\n" + (TestLine + "\n" + (TestLine + "\n"))
    ensures LoadRecords(Lines(text)) == [TestRecord, TestRecord]
  {
    TitleBarIsOneCommentLine();
    TestLineLoads();
    LoadCommentThenTwice(TitleBar, TestLine, TestRecord);
  }

  /** write_table on a table holding the test record twice does not reproduce the test's
      file: the written text is four characters longer (two extra tabs per record line),
      though both files read back as the same records. */
  lemma WrittenTestTableDiffers(text: string)
    requires text == TitleBar + "\n" + (TestLine + "\n" + (TestLine + "\n"))
    ensures |TableText([TestRecord, TestRecord])| == |text| + 4
    ensures LoadRecords(Lines(TableText([TestRecord, TestRecord]))) == LoadRecords(Lines(text))
  {
    WrittenTestTableLength(text);
    WrittenTestTableLoads();
    TestFileLoads(text);
  }

  lemma WrittenTestTableLength(text: string)
    requires text == TitleBar + "\n" + (TestLine + "\n" + (TestLine + "\n"))
    ensures |TableText([TestRecord, TestRecord])| == |text| + 4
  {
    PrintedTestRecordLength();
    RenderedTwice(TestRecord);
  }

  lemma WrittenTestTableLoads()
    ensures LoadRecords(Lines(TableText([TestRecord, TestRecord]))) == [TestRecord, TestRecord]
  {
    TestRecordIsSerialisable();
    assert TestRecord.targetname.value[0] == 'S';
    WriteReadRoundTrip([TestRecord, TestRecord]);
  }

  /** A printable record listed twice renders as its line twice. */
  lemma RenderedTwice(r: ObsRecord)
    requires Printable(r)
    ensures Rendered([r, r], PrintRecord) == PrintRecord(r).value + "\n" + (PrintRecord(r).value + "\n")
  {
    RenderedFirst([r, r], PrintRecord);
    assert [r, r][1..] == [r];
    RenderedFirst([r], PrintRecord);
    assert [r][1..] == [];
  }

  // ---------------------------------------------------------------------------
  // The file system
  // ---------------------------------------------------------------------------

  /** Files on disk: a path exists exactly when it has an entry. */
  class Disk {
    var files: map<string, string>

    constructor (files: map<string, string>)
      ensures this.files == files
    {
      this.files := files;
    }

    /** `open(path, 'w')`: create the file, or truncate it. */
    method Create(path: string)
      modifies this
      ensures files == old(files)[path := ""]
    {
      files := files[path := ""];
    }

    /** `f.write(s)` on an open file. */
    method Append(path: string, s: string)
      requires path in files
      modifies this
      ensures files == old(files)[path := old(files)[path] + s]
    {
      files := files[path := files[path] + s];
    }
  }

  /** The argument of add_records_to_table: an ObsRecord, a list, None, or anything else. */
  datatype RecordsArg = Single(rec: ObsRecord) | List(recs: seq<ObsRecord>) | NoRecords | Other

  function ArgRecords(arg: RecordsArg): seq<ObsRecord> {
    match arg
    case Single(r) => [r]
    case List(rs) => rs
    case _ => []
  }

  class ObsTable {
    var records: seq<ObsRecord>
    var length: int
    var filename: Option<string>
    const titlebar: string := TitleBar

    /** The cached length agrees with the list. */
    ghost predicate Valid()
      reads this
    {
      length == |records|
    }

    /** The file a call reads or writes: the argument if given, else the bound file name. */
    function Target(name: Option<string>): Option<string>
      reads this
    {
      if name.Some? then name else filename
    }

    /** `ObsTable()`: empty and not bound to a file. */
    constructor ()
      ensures Valid() && records == [] && filename == None
    {
      records := [];
      length := 0;
      filename := None;
    }

    /** `ObsTable(filename, records)`: seed the records, then, when a file name is given,
        load the file, which replaces the seeded records. */
    static method New(name: Option<string>, arg: RecordsArg, disk: Disk) returns (r: Result<ObsTable>)
      ensures arg.Other? ==> r == Failure(RuntimeError)
      ensures !arg.Other? && name.Some? && name.value !in disk.files ==> r == Failure(IOError)
      ensures r.Success? <==> !arg.Other? && (name.None? || name.value in disk.files)
      ensures r.Success? ==> fresh(r.value) && r.value.Valid() && r.value.filename == name
      ensures r.Success? && name.None? ==> r.value.records == ArgRecords(arg)
      ensures r.Success? && name.Some? ==> r.value.records == LoadRecords(Lines(disk.files[name.value]))
    {
      var t := new ObsTable();
      var err := t.AddRecordsToTable(arg);
      if err.Some? {
        return Failure(err.value);
      }
      t.filename := name;
      if name.Some? {
        err := t.ReadTable(name, disk);
        if err.Some? {
          return Failure(err.value);
        }
      }
      return Success(t);
    }

    /** `add_records_to_table`: append one record, extend by a list, ignore None; anything else
        raises RuntimeError. The records already there are kept in place. */
    method AddRecordsToTable(arg: RecordsArg) returns (err: Option<Error>)
      modifies this
      ensures filename == old(filename)
      ensures arg.Other? ==> err == Some(RuntimeError) && records == old(records) && length == old(length)
      ensures !arg.Other? ==> err == None && records == old(records) + ArgRecords(arg) && Valid()
    {
      match arg {
        case List(rs) => records := records + rs;
        case Single(r) => records := records + [r];
        case NoRecords =>
        case Other => return Some(RuntimeError);
      }
      length := |records|;
      return None;
    }

    /** `read_table`: replace the records by those of the file's lines, skipping comments and
        lines read_record rejects. */
    method ReadTable(name: Option<string>, disk: Disk) returns (err: Option<Error>)
      modifies this
      ensures filename == old(filename)
      ensures old(Target(name)).None? ==> err == Some(ValueError) && unchanged(this)
      ensures old(Target(name)).Some? && old(Target(name)).value !in disk.files ==>
                err == Some(IOError) && unchanged(this)
      ensures old(Target(name)).Some? && old(Target(name)).value in disk.files ==>
                err == None && Valid() && records == LoadRecords(Lines(disk.files[old(Target(name)).value]))
    {
      var path := Target(name);
      if path.None? {
        return Some(ValueError);
      }
      if path.value !in disk.files {
        return Some(IOError);
      }
      var lines := Lines(disk.files[path.value]);
      records := [];
      length := 0;
      for i := 0 to |lines|
        invariant filename == old(filename)
        invariant Valid()
        invariant records == LoadRecords(lines[..i])
      {
        LoadOneMore(lines, i);
        ReadLine(lines[i]);
      }
      assert lines[..|lines|] == lines;
      return None;
    }

    /** One pass of read_table's loop: skip a comment line, add the record a line reads as,
        and drop a line read_record rejects with ValueError. */
    method ReadLine(line: string)
      requires Valid()
      modifies this
      ensures filename == old(filename)
      ensures Valid() && records == old(records) + LineRecords(line)
    {
      if IsComment(line) {
        return;
      }
      var rec := ReadRecord(line);
      if rec.Success? {
        var _ := AddRecordsToTable(Single(rec.value));
      }
    }

    /** `write_table`: refuse with IOError when there is no file name, or when the file exists and
        clobber is false; otherwise write the title bar and every record line. A record with an
        unset number stops the writing with TypeError, leaving the lines written so far. */
    method WriteTable(name: Option<string>, clobber: bool, disk: Disk) returns (err: Option<Error>)
      modifies disk
      ensures Target(name).None? ==> err == Some(IOError) && disk.files == old(disk.files)
      ensures Target(name).Some? && Target(name).value in old(disk.files) && !clobber ==>
                err == Some(IOError) && disk.files == old(disk.files)
      ensures Target(name).Some? && (Target(name).value !in old(disk.files) || clobber) ==>
                disk.files == old(disk.files)[Target(name).value := TableText(records)] &&
                err == (if AllPrintable(records) then None else Some(TypeError))
    {
      var path := Target(name);
      if path.None? {
        return Some(IOError);
      }
      if path.value in disk.files && !clobber {
        return Some(IOError);
      }
      err := WriteFile(path.value, disk);
    }

    /** The `with open(filename, 'w')` block of write_table: create or truncate the file, write
        the title bar and a newline, then each record's line and a newline. A record print_record
        fails on stops the writing with TypeError. */
    method WriteFile(path: string, disk: Disk) returns (err: Option<Error>)
      modifies disk
      ensures disk.files == old(disk.files)[path := TableText(records)]
      ensures err == if AllPrintable(records) then None else Some(TypeError)
    {
      disk.Create(path);
      disk.Append(path, titlebar);
      Overwrite(old(disk.files), path, "", "" + TitleBar);
      disk.Append(path, "\n");
      Overwrite(old(disk.files), path, "" + TitleBar, "" + TitleBar + "\n");
      var ok := AppendRendered(disk, path, records, PrintRecord);
      TitleThenRecords(records);
      Overwrite(old(disk.files), path, "" + TitleBar + "\n", TableText(records));
      AllPrintableRendered(records);
      err := if ok then None else Some(TypeError);
    }

    /** `print_table`: the title bar and then every record line, each printed on a line of its
        own; the text is returned instead of sent to the console. */
    method PrintTable() returns (out: string, err: Option<Error>)
      ensures out == TableText(records)
      ensures err == if AllPrintable(records) then None else Some(TypeError)
    {
      out := titlebar + "\n";
      assert out == TableText(records[..0]) by {
        assert records[..0] == [];
        assert Rendered([], PrintRecord) == "";
      }
      var i := 0;
      while i < |records|
        invariant 0 <= i <= |records|
        invariant AllRendered(records[..i], PrintRecord)
        invariant out == TableText(records[..i])
      {
        var line := PrintRecord(records[i]);
        RenderedOneMore(TitleBar + "\n", records, i, PrintRecord);
        if line.Failure? {
          AllPrintableRendered(records);
          return out, Some(TypeError);
        }
        out := out + line.value + "\n";
        i := i + 1;
      }
      assert records[..i] == records;
      AllPrintableRendered(records);
      return out, None;
    }
  }

  /** Append each item's line and a newline to the file at `path`, stopping at the first item
      `line` fails on; `ok` tells whether every item was written. */
  method AppendRendered<T>(disk: Disk, path: string, items: seq<T>, line: T -> Result<string>) returns (ok: bool)
    requires path in disk.files
    modifies disk
    ensures disk.files == old(disk.files)[path := old(disk.files)[path] + Rendered(items, line)]
    ensures ok == AllRendered(items, line)
  {
    var i := 0;
    assert disk.files == old(disk.files)[path := old(disk.files)[path] + Rendered(items[..0], line)] by {
      assert items[..0] == [];
      assert old(disk.files)[path] + "" == old(disk.files)[path];
    }
    while i < |items|
      invariant 0 <= i <= |items|
      invariant AllRendered(items[..i], line)
      invariant disk.files == old(disk.files)[path := old(disk.files)[path] + Rendered(items[..i], line)]
    {
      var text := line(items[i]);
      RenderedOneMore(old(disk.files)[path], items, i, line);
      if text.Failure? {
        return false;
      }
      disk.Append(path, text.value);
      disk.Append(path, "\n");
      i := i + 1;
    }
    assert items[..i] == items;
    return true;
  }

  lemma Overwrite<K, V>(m: map<K, V>, k: K, a: V, b: V)
    ensures m[k := a][k := b] == m[k := b]
  {
  }

  /** Write a table of storable records to a file, then open a fresh table on that file:
      it holds the same records in the same order. */
  method SaveAndReload(t: ObsTable, path: string, disk: Disk) returns (r: Result<ObsTable>)
    requires forall i :: 0 <= i < |t.records| ==> Storable(t.records[i])
    modifies disk
    ensures r.Success? && r.value.records == t.records
  {
    WriteReadRoundTrip(t.records);
    var err := t.WriteTable(Some(path), true, disk);
    r := ObsTable.New(Some(path), NoRecords, disk);
  }

  /** Reading a table twice in a row leaves it as the first read did. */
  method ReadTwice(t: ObsTable, disk: Disk) returns (first: seq<ObsRecord>)
    requires t.filename.Some? && t.filename.value in disk.files
    modifies t
    ensures t.filename == old(t.filename)
    ensures t.records == first == LoadRecords(Lines(disk.files[old(t.filename).value]))
  {
    var _ := t.ReadTable(None, disk);
    first := t.records;
    var _ := t.ReadTable(None, disk);
  }
}
