# Observation table and file-range bookkeeping, in Dafny

This project models the bookkeeping core of a small near-infrared spectroscopy reduction
toolkit. It has three parts:

- **The observation record** (`ObsRecord`, utils/obstable.py) is one line of the observation
  summary table. It holds ten attributes: target name, file root name, band, grism, data type,
  the data types it applies to, file range, exposure time, number of read pairs (LNRS) and
  read mode. It has a constructor that coerces the two numbers and Python 2's three-way
  comparison over the ten-tuple. `print_record` writes it as one tab-separated line and
  `read_record` parses such a line.
- **The observation table** (`ObsTable`, utils/obstable.py) is an ordered, growing list of
  records with a cached length and an optional file name. It can add records, read a table
  file (skipping `#` lines and lines that do not parse) and write one (title bar, then one
  line per record, refusing to overwrite when `clobber` is false). `print_table` renders the
  same text.
- **Bookkeeping helpers** (utils/bookkeeping.py):
  - `parse_filerange` expands file ranges such as `218-221,223-225` into file numbers.
  - `get_req_input_list` is the fixed table of prompts asked for a new record.
  - `create_record` turns the answers into a record.

Module layout:

| file | module | contents |
|---|---|---|
| `wrappers.dfy` | `Wrappers` | `Option`, `Result`, and the Python exceptions the core raises |
| `pytext.dfy` | `PyText` | the Python 2 built-ins the core relies on (see below) |
| `obsrecord.dfy` | `ObsRecords` | the record as a value, with its constructor, comparison, printer and parser |
| `obstable.dfy` | `ObsTables` | the table as a class with methods, and the file system as a `Disk` object (a map from path to text) |
| `bookkeeping.dfy` | `Bookkeeping` | the file-range expander (a method proved against a function), the prompt table, and `create_record` |

The built-ins modelled in `PyText` are:

- `str.split()` and `str.split(sep)`;
- iteration over the lines of a file;
- `int()` and `float()` on decimal text;
- the `%d` and `%.1f` conversions;
- `cmp()` on sequences.

Modelling choices:

- **Exposure time** is held as a whole number of tenths of a second. The table format writes
  it with exactly one decimal, so `%.1f` and `float()` become exact operations on integers.
- **Python exceptions** become `Failure` values carrying the exception kind. The kinds are
  `ValueError`, `TypeError`, `RuntimeError`, `IOError`, `KeyError` and `NameError`.
- **Files.** A table file is a string on a `Disk` object, and a path exists exactly when the
  disk has an entry for it. Iterating over a file gives its lines, each keeping its `'\n'`.
- **Console output.** `print_table` returns the text it would print.

Where a prose description of the system and the code disagree, the model follows the code:

- `print_record` fails (with `TypeError`) only when the exposure time or LNRS is unset. An
  unset text attribute is formatted by `%s` and printed as the word `None`.
- `print_record`'s format has a double tab after the data type and after the file range
  (utils/obstable.py:271). The tests expect single tabs everywhere (utils/tests/test_obstable.py:11).
  - `ObsRecords.PrintedTestRecordDiffersFromTestLine` proves that the printed test record is
    two characters longer than the line the test expects.
  - `ObsTables.WrittenTestTableDiffers` proves that `write_table` produces a file four
    characters longer than the one the tests write by hand.
  - Both lemmas also prove that the two texts read back as the same records, because
    `split()` merges whitespace runs. Which side is intended cannot be told from the
    repository, so the model keeps the code's format.
- A record whose target name starts with `#` is written, but `read_table` then skips its line
  as a comment: the write-then-read round trip holds only for records that avoid this
  (`ObsTables.HashTargetIsLost`).
- Constructing a table with the name of a missing file raises `IOError`, because the
  constructor calls `read_table` whenever a file name is given (utils/obstable.py:34-35).
  The class docstring says instead that a missing file is created (utils/obstable.py:21-22).
  The only caller, mktable_helper, expects a new table to start empty: it catches `IOError`
  around a second `read_table` call (utils/bookkeeping.py:13-23). That `try` never runs for a
  missing file, because the constructor has already raised.
- A reversed span such as `221-218` yields no numbers and raises no error
  (`Bookkeeping.ExpandReversedSpan`).

## Model

| member | source | states |
|---|---|---|
| PyText.Split | utils/obstable.py:297 | every token of `line.split()` is non-empty and free of whitespace |
| PyText.SplitJoined | utils/obstable.py:271-297 | splitting non-empty words joined by whitespace separators, with any trailing whitespace, gives back exactly those words |
| PyText.JoinedHasNoNewline | utils/obstable.py:271 | words without whitespace joined by tabs form a single line |
| PyText.SplitOn | utils/bookkeeping.py:167-169 | `s.split(c)` gives at least one piece, and no piece contains `c` |
| PyText.SplitOnConcat | utils/bookkeeping.py:167 | splitting at a separator inserted between two texts gives the pieces of the first, then the pieces of the second |
| PyText.LinesFirst | utils/obstable.py:121 | iterating a file yields a newline-terminated first line as one item, keeping its `'\n'`, followed by the lines of the rest |
| PyText.ParseNat | utils/obstable.py:300 | `int()` succeeds exactly on a non-empty run of decimal digits |
| PyText.ShowNatRoundTrip | utils/obstable.py:271-300 | `int()` reads back what `%d` writes |
| PyText.FormatTenthsRoundTrip | utils/obstable.py:271-299 | `float()` reads back what `%.1f` writes, and that text is a non-empty word |
| PyText.LexZero | utils/obstable.py:252-259 | `cmp()` on sequences is -1, 0 or 1, is zero exactly on equal sequences, and negates when the operands swap |
| PyText.LexTransitive | utils/obstable.py:252-259 | `cmp()` on sequences is transitive |
| PyText.LexIsComparison | utils/obstable.py:252-259 | `cmp()` on sequences is a three-way comparison whenever the element comparison is |
| PyText.LexLessAt | utils/obstable.py:252-259 | for sequences of equal length, `a` sorts first exactly when the two agree up to some position where `a`'s element is smaller |
| ObsRecords.ToInt | utils/obstable.py:245 | `int()` keeps an int, truncates a float toward zero, and succeeds on text exactly when it is digits |
| ObsRecords.NewRecord | utils/obstable.py:234-247 | construction fails (ValueError) only when a given number does not convert; text attributes are stored unchanged; exptime and lnrs are unset exactly when not given, and otherwise hold `float()` and `int()` of the argument |
| ObsRecords.TestRecordConstruction | utils/tests/test_obstable.py:12-17 | the test's record, built with `exptime=90` and `lnrs=6`, holds 90.0 seconds and 6 read pairs |
| ObsRecords.CmpValueIsComparison | utils/obstable.py:252-259 | Python 2 comparison of tuple elements (None before numbers before strings) is a three-way comparison of a strict total order |
| ObsRecords.CmpZeroIffEqual | utils/obstable.py:250-259 | two records compare equal exactly when all ten attributes are equal |
| ObsRecords.CmpAntisymmetric | utils/obstable.py:250-259 | the comparison is -1, 0 or 1 and negates when the records swap |
| ObsRecords.CmpTransitive | utils/obstable.py:250-259 | the comparison is transitive, so records sort consistently |
| ObsRecords.CmpLexicographic | utils/obstable.py:250-259 | `a` sorts before `b` exactly when, at the first attribute (in the fixed order) where they differ, `a`'s value is smaller |
| ObsRecords.PrintRecord | utils/obstable.py:261-282 | printing succeeds exactly when exptime and lnrs are set; otherwise it raises TypeError |
| ObsRecords.FieldTextsAreWords | utils/obstable.py:271-281 | every printed column of a serialisable record, including `%.1f` of exptime and `%d` of lnrs, is a non-empty word |
| ObsRecords.ReadRecord | utils/obstable.py:284-302 | parsing succeeds exactly when the line splits into ten tokens whose eighth is a `float()` and ninth an `int()`; otherwise it raises ValueError |
| ObsRecords.ReadRecordValues | utils/obstable.py:293-300 | a parsed record is serialisable, and its numbers are the converted eighth and ninth tokens |
| ObsRecords.ReadRecordColumns | utils/obstable.py:293-297 | each text attribute of a parsed record is the token at its position |
| ObsRecords.ReadsColumnsBack | utils/obstable.py:293-300 | a line whose tokens are a serialisable record's printed columns parses as that record |
| ObsRecords.RoundTrip | utils/obstable.py:261-302 | for a serialisable record, `read_record(print_record(r))` followed by any whitespace (such as the line's `'\n'`) is `r` again |
| ObsRecords.PrintedRecordStart | utils/obstable.py:271-272 | a printed serialisable record starts with the first character of its target name |
| ObsRecords.PrintedRecordIsOneLine | utils/obstable.py:271-281 | a printed serialisable record contains no newline |
| ObsRecords.TestLineReadsAsTestRecord | utils/tests/test_obstable.py:34-42 | the test's single-tab line parses to the test record, with exptime 90.0 and lnrs 6 |
| ObsRecords.PrintedTestRecord | utils/tests/test_obstable.py:29-32 | printing the test record gives its ten values joined by the code's separators (double tabs after datatype and filerange), and the record is serialisable |
| ObsRecords.PrintedTestRecordDiffersFromTestLine | utils/tests/test_obstable.py:29-32 | the printed test record is two characters longer than the line the test expects, yet both parse as the same record |
| ObsTables.LoadRecordsAppend | utils/obstable.py:121-131 | read_table's loading is line by line: two blocks of lines load as their two loads, in order |
| ObsTables.LoadedRecordsComeFromLines | utils/obstable.py:121-131 | every loaded record comes from a line that does not start with `#` and that read_record accepts, and it is serialisable |
| ObsTables.RenderedAppend | utils/obstable.py:165-167 | rendering record lines goes item by item and stops at the first record that fails to print |
| ObsTables.AllPrintableRendered | utils/obstable.py:98-99 | every record line renders exactly when every record has both numbers set |
| ObsTables.TitleBarIsOneCommentLine | utils/obstable.py:36-38 | the title bar is a single line starting with `#` |
| ObsTables.StoredLine | utils/obstable.py:122-127 | the line of a storable record, with its newline, loads as exactly that record |
| ObsTables.RenderedLinesLoad | utils/obstable.py:121-131 | the record lines of a table of storable records load back as exactly those records, in order |
| ObsTables.TitleBarLoadsNothing | utils/obstable.py:122-123 | the title bar is skipped, so a table file loads as its record lines |
| ObsTables.WriteReadRoundTrip | utils/obstable.py:162-167 | the text write_table writes for storable records loads back as the same records in the same order |
| ObsTables.HashLineLoadsNothing | utils/obstable.py:122-123 | the line of a record whose target name starts with `#` loads as nothing |
| ObsTables.HashTargetIsLost | utils/obstable.py:122-123 | a table holding one record whose target name starts with `#` is written but reads back empty |
| ObsTables.MalformedLineIsSkipped | utils/obstable.py:124-131 | a data line with the wrong number of columns is dropped, and the next good line still loads |
| ObsTables.TestLineLoads | utils/tests/test_obstable.py:61-73 | the test's single-tab data line is one line and loads as the test record |
| ObsTables.TestFileLoads | utils/tests/test_obstable.py:116-121 | the file the tests write by hand (title bar and two data lines) reads as two copies of the test record |
| ObsTables.WrittenTestTableDiffers | utils/tests/test_obstable.py:138-146 | write_table on the two test records writes four characters more than the hand-written file, and both files load as the same records |
| ObsTables.Disk.Create | utils/obstable.py:162 | opening for writing creates the file or truncates it to empty, touching no other file |
| ObsTables.Disk.Append | utils/obstable.py:163-167 | a write appends its text to the open file, touching no other file |
| ObsTables.ObsTable.constructor | utils/obstable.py:29-39 | `ObsTable()` is empty, consistent in length and bound to no file |
| ObsTables.ObsTable.New | utils/obstable.py:29-39 | an unsupported records argument raises RuntimeError, a missing file raises IOError; otherwise the table is bound to the name and holds the seeded records, or, when a file is named, exactly the file's loaded records |
| ObsTables.ObsTable.AddRecordsToTable | utils/obstable.py:57-76 | a record is appended, a list extends in order, None changes nothing; other arguments raise RuntimeError and leave the table alone; existing records are kept and length equals the list's size |
| ObsTables.ObsTable.ReadTable | utils/obstable.py:102-136 | no file name at all raises ValueError and a missing file raises IOError, both leaving the table unchanged; otherwise the records are replaced by the file's loaded records and length agrees |
| ObsTables.ObsTable.ReadLine | utils/obstable.py:121-131 | one pass of the read loop adds exactly what the line loads as: nothing for a `#` line or one read_record rejects, otherwise its record |
| ObsTables.ObsTable.WriteTable | utils/obstable.py:138-172 | no file name raises IOError; an existing file with clobber false raises IOError; both leave every file unchanged; otherwise the file holds the table text, and the call raises TypeError exactly when some record cannot be printed |
| ObsTables.ObsTable.WriteFile | utils/obstable.py:162-167 | the file ends up holding the title bar, a newline and each record line with its newline; other files are untouched |
| ObsTables.ObsTable.PrintTable | utils/obstable.py:93-100 | the printed text is the title bar and the record lines, the same text write_table writes, and it raises TypeError exactly when some record cannot be printed |
| ObsTables.AppendRendered | utils/obstable.py:165-167 | the loop appends each record line and a newline until a record fails to print, and reports whether all were written |
| ObsTables.SaveAndReload | utils/obstable.py:138-172 | writing a table of storable records and opening a new table on that file gives the same records in the same order |
| ObsTables.ReadTwice | utils/tests/test_obstable.py:123-130 | reading the table again leaves exactly the records of the first read: read_table replaces, it does not append |
| Bookkeeping.Range | utils/bookkeeping.py:173-176 | counting from the first bound to the second gives `B - A + 1` numbers, the i-th being `A + i`, and none when `A > B` |
| Bookkeeping.RangeMembers | utils/bookkeeping.py:172-176 | a span holds exactly the integers between its bounds, strictly ascending |
| Bookkeeping.ExpandTokenShape | utils/bookkeeping.py:169-178 | a token yields non-negative numbers in strictly ascending order, or fails with ValueError or RuntimeError |
| Bookkeeping.ParseFilerange | utils/bookkeeping.py:160-180 | the loops compute exactly the expansion of the file range, including which exception the first bad token raises |
| Bookkeeping.AppendToken | utils/bookkeeping.py:169-178 | one token appends its number or its span to the list built so far, or raises its error |
| Bookkeeping.ConcatAllAppend | utils/bookkeeping.py:166-168 | expanding two runs of tokens is concatenating their expansions; the first run's error wins |
| Bookkeeping.ExpandNumber | utils/bookkeeping.py:170-171 | a single number denotes exactly itself |
| Bookkeeping.ExpandSpan | utils/bookkeeping.py:172-176 | `A-B` denotes A, A + 1, ..., B |
| Bookkeeping.ExpandJoin | utils/bookkeeping.py:166-168 | joining two file ranges with a comma concatenates their numbers in order; the first error wins |
| Bookkeeping.ExpandTooManyDashes | utils/bookkeeping.py:177-178 | a token with two or more dashes raises RuntimeError |
| Bookkeeping.ExpandFileRangeText | utils/tests/test_bookkeeping.py:96-110 | every comma-joined list of numbers and spans expands to its items' numbers in the order written, without sorting or removing duplicates |
| Bookkeeping.ExpandReversedSpan | utils/bookkeeping.py:172-176 | `221-218` yields no numbers and no error |
| Bookkeeping.ExpandTwoDashes | utils/bookkeeping.py:177-178 | `1-2-3` raises RuntimeError |
| Bookkeeping.ExpandEmpty | utils/bookkeeping.py:170-171 | the empty file range raises ValueError |
| Bookkeeping.ExpandMissingUpper | utils/bookkeeping.py:172-174 | `5-` raises ValueError |
| Bookkeeping.ExpandMissingLower | utils/bookkeeping.py:172-173 | `-5` raises ValueError |
| Bookkeeping.ExpandNotANumber | utils/bookkeeping.py:170-171 | `a` raises ValueError |
| Bookkeeping.ExpandTokenValueError | utils/bookkeeping.py:169-178 | a token raises ValueError exactly when it has at most one '-' and one of its parts is not a run of decimal digits |
| Bookkeeping.ReqInputList | utils/bookkeeping.py:92-128 | ten prompts, whose ids are the record fields in the asked order; every prompt but applyto has `in_hdr`, true exactly for band, grism, exptime, lnrs and rdmode; applyto's flag is keyed `in_hrd`, so its `in_hdr` lookup raises KeyError |
| Bookkeeping.PromptsCoverRecordKeys | utils/bookkeeping.py:143-158 | the prompt ids are exactly the keys create_record reads, each once |
| Bookkeeping.FirstMissing | utils/bookkeeping.py:147-154 | the first key the dictionary lacks, in reading order, or none when all are present |
| Bookkeeping.CreateRecordError | utils/bookkeeping.py:147-155 | create_record's exception is the first one met in reading order: KeyError exactly when a key from targetname to exptime is missing, naming the first missing one; ValueError exactly when all of these are present and exptime does not convert; NameError for `integer` exactly when all are present and exptime converts |
| Bookkeeping.CreateRecord | utils/bookkeeping.py:143-158 | as written, create_record never returns a record; it raises the exception CreateRecordError describes |
| Bookkeeping.IntendedRecord | utils/bookkeeping.py:143-158 | with `int` in place of `integer`: a record results exactly when all ten keys are present and both numbers convert, and it is the record the constructor makes from the same-named answers, with exptime read by `float()` and lnrs by `int()`; otherwise the first exception in reading order: KeyError for the first missing key up to exptime, ValueError for exptime, KeyError or ValueError for lnrs, KeyError for rdmode |
| Bookkeeping.IntendedRecordStores | utils/bookkeeping.py:143-158 | for single-word answers, the intended record is serialisable and reads back unchanged from its printed line |
| Bookkeeping.IntendedRecordPassesWrittenChecks | utils/bookkeeping.py:154-155 | when the intended version returns a record, the written one reaches the `integer` call; before that call both raise the same exception |

## Left out

- `pretty_table` (utils/obstable.py:183-198) is not modelled: it rewrites the file through the astropy `ascii` reader and writer, a foreign library.
- `validate_filename` is not modelled: it returns its argument unchanged, so the model uses the name as given.
- `select_records_from_table` and `append_table` are not modelled: they are commented out in the source (utils/obstable.py:78-91 and 174-181).
- `query_header`, `mktable_helper`, `mkdirectories` and `mkscript` in utils/bookkeeping.py are not part of this model. They read instrument headers through AstroData, prompt interactively, create directories, or are empty.
- PyText.ParseNat: numeric text is decimal digits only. Python's `int()` and `float()` also accept signs, surrounding blanks, exponents and special values such as `nan`, so a table line or file-range token the model rejects may be accepted by Python.
- PyText.ParseTenths: only `D+` or `D+.D` is accepted, matching the one-decimal format the table writes.
- ObsRecords.ToFloat: a Python float passed to the constructor is taken to be a whole number of tenths. Floating-point rounding is not modelled.
- ObsRecords.ReadRecord: it is a function returning a fresh record. The source assigns the record's attributes in place, so a line whose numbers fail to convert leaves the record half-updated. The only caller (`read_table`) discards that record, so nothing observable is lost.
- `create_record` fills a fresh record field by field. The model does the same on a record value, and the unused intermediate record is not returned.
- Records are values. Two tables holding the same record object, and changes to it through one of them, are not modelled; the core never changes a record after adding it.
- ObsRecords.Cmp: only None, integers and strings are compared, which covers every attribute value this core produces. Python 2's ordering of other types by type name is not modelled.
- File handles are not modelled. Closing files, permission errors and failures other than a missing file are left out, and a path exists exactly when the disk maps it.
- The message `write_table` prints before refusing to overwrite is not modelled, and `print_table` returns its text instead of printing it.
- Bookkeeping.AppendToken: `parse_filerange` converts the upper bound again on every loop test; the model converts it once. The outcome is the same because the text does not change between tests.
- Bookkeeping.CreateRecord: dictionary values are strings. The source's values may be any Python object that `float()` accepts.
- The `get_req_input_list` prompt texts are kept, but nothing is stated about them.

## Findings

| source | as written | input that shows it | evidently intended | confidence | as-written member | corrected member |
|---|---|---|---|---|---|---|
| utils/bookkeeping.py:155 | the lnrs conversion calls `integer`, a name defined nowhere in the module or its imports, so create_record raises NameError every time it gets that far | any answers holding the eight keys from targetname to exptime with a numeric exptime, e.g. the values of the test record (`exptime` = `90`) | `int`, the conversion read_record uses for the same column (utils/obstable.py:300) | high, not executed | Bookkeeping.CreateRecord | Bookkeeping.IntendedRecord |
