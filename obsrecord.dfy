/**
 * One line of the observation summary table (class ObsRecord in utils/obstable.py):
 * ten named attributes, the three-way comparison over them, and the tab-separated
 * text form that print_record writes and read_record parses.
 *
 * The exposure time is held as a whole number of tenths of a second: the table
 * format writes it with exactly one decimal, so no information is lost.
 */
module ObsRecords {
  import opened Wrappers
  import opened PyText

  /** A record; every attribute may be unset (Python None). */
  datatype ObsRecord = ObsRecord(
    targetname: Option<string>,
    rootname: Option<string>,
    band: Option<string>,
    grism: Option<string>,
    dataType: Option<string>,
    applyto: Option<string>,
    filerange: Option<string>,
    exptime: Option<int>,   // tenths of a second
    lnrs: Option<int>,
    rdmode: Option<string>)

  /** `ObsRecord()`: every attribute unset. */
  const Unset := ObsRecord(None, None, None, None, None, None, None, None, None, None)

  // ---------------------------------------------------------------------------
  // Construction: exptime and lnrs are coerced with float() and int()
  // ---------------------------------------------------------------------------

  /** A Python value handed to the constructor for a numeric attribute. */
  datatype PyNumber = Int(i: int) | Float(tenths: int) | Str(s: string)

  /** `float(x)`, in tenths. */
  function ToFloat(x: PyNumber): Result<int>
  {
    match x
    case Int(i) => Success(10 * i)
    case Float(t) => Success(t)
    case Str(s) => if ParseTenths(s).Some? then Success(ParseTenths(s).value) else Failure(ValueError)
  }

  /** `int(x)`: a float is truncated toward zero, text must be decimal digits. */
  function ToInt(x: PyNumber): (r: Result<int>)
    ensures x.Int? ==> r == Success(x.i)
    ensures x.Float? && x.tenths >= 0 ==> r.Success? && 0 <= 10 * r.value <= x.tenths < 10 * r.value + 10
    ensures x.Float? && x.tenths < 0 ==> r.Success? && 10 * r.value - 10 < x.tenths <= 10 * r.value <= 0
    ensures x.Str? ==> (r.Success? <==> IsDigits(x.s))
  {
    match x
    case Int(i) => Success(i)
    case Float(t) => Success(if t >= 0 then t / 10 else -((-t) / 10))
    case Str(s) => if ParseNat(s).Some? then Success(ParseNat(s).value) else Failure(ValueError)
  }

  /** `ObsRecord(targetname, ..., rdmode)`. */
  function NewRecord(targetname: Option<string>, rootname: Option<string>, band: Option<string>,
                     grism: Option<string>, dataType: Option<string>, applyto: Option<string>,
                     filerange: Option<string>, exptime: Option<PyNumber>, lnrs: Option<PyNumber>,
                     rdmode: Option<string>): (r: Result<ObsRecord>)
    ensures r.Success? <==> (exptime.None? || ToFloat(exptime.value).Success?) &&
                            (lnrs.None? || ToInt(lnrs.value).Success?)
    ensures r.Failure? ==> r.error == ValueError
    ensures r.Success? ==>
      && r.value.targetname == targetname && r.value.rootname == rootname
      && r.value.band == band && r.value.grism == grism && r.value.dataType == dataType
      && r.value.applyto == applyto && r.value.filerange == filerange && r.value.rdmode == rdmode
    ensures r.Success? ==> (r.value.exptime.None? <==> exptime.None?) && (r.value.lnrs.None? <==> lnrs.None?)
    ensures r.Success? && exptime.Some? ==> r.value.exptime.value == ToFloat(exptime.value).value
    ensures r.Success? && lnrs.Some? ==> r.value.lnrs.value == ToInt(lnrs.value).value
  {
    var e := if exptime.None? then Success(None) else
             (var f := ToFloat(exptime.value); if f.Failure? then Failure(f.error) else Success(Some(f.value)));
    var n := if lnrs.None? then Success(None) else
             (var k := ToInt(lnrs.value); if k.Failure? then Failure(k.error) else Success(Some(k.value)));
    if e.Failure? then Failure(e.error)
    else if n.Failure? then Failure(n.error)
    else Success(ObsRecord(targetname, rootname, band, grism, dataType, applyto, filerange,
                           e.value, n.value, rdmode))
  }

  // ---------------------------------------------------------------------------
  // __cmp__: Python 2 cmp() over the ten-tuple
  // ---------------------------------------------------------------------------

  /** A tuple element as Python 2 compares it: None < numbers < strings. */
  datatype PyValue = PyNone | PyNum(n: int) | PyStr(s: string)

  function CmpChar(x: char, y: char): int {
    if x < y then -1 else if x == y then 0 else 1
  }

  function CmpValue(a: PyValue, b: PyValue): int {
    match (a, b)
    case (PyNone, PyNone) => 0
    case (PyNone, _) => -1
    case (_, PyNone) => 1
    case (PyNum(x), PyNum(y)) => if x < y then -1 else if x == y then 0 else 1
    case (PyNum(_), PyStr(_)) => -1
    case (PyStr(_), PyNum(_)) => 1
    case (PyStr(x), PyStr(y)) => Lex(x, y, CmpChar)
  }

  function OptStr(o: Option<string>): PyValue {
    if o.None? then PyNone else PyStr(o.value)
  }

  function OptNum(o: Option<int>): PyValue {
    if o.None? then PyNone else PyNum(o.value)
  }

  /** The tuple __cmp__ builds, in its fixed field order. */
  function Key(r: ObsRecord): (k: seq<PyValue>)
    ensures |k| == 10
  {
    [OptStr(r.targetname), OptStr(r.rootname), OptStr(r.band), OptStr(r.grism),
     OptStr(r.dataType), OptStr(r.applyto), OptStr(r.filerange),
     OptNum(r.exptime), OptNum(r.lnrs), OptStr(r.rdmode)]
  }

  /** `a.__cmp__(b)`: negative, zero or positive as `a` sorts before, with or after `b`. */
  function Cmp(a: ObsRecord, b: ObsRecord): int {
    Lex(Key(a), Key(b), CmpValue)
  }

  lemma CmpValuePair(a: PyValue, b: PyValue)
    ensures -1 <= CmpValue(a, b) <= 1
    ensures CmpValue(a, b) == 0 <==> a == b
    ensures CmpValue(a, b) == -CmpValue(b, a)
  {
    if a.PyStr? && b.PyStr? {
      assert IsComparison(CmpChar);
      LexZero(a.s, b.s, CmpChar);
    }
  }

  lemma CmpValueTriple(a: PyValue, b: PyValue, c: PyValue)
    requires CmpValue(a, b) < 0 && CmpValue(b, c) < 0
    ensures CmpValue(a, c) < 0
  {
    if a.PyStr? && b.PyStr? && c.PyStr? {
      assert IsComparison(CmpChar);
      LexTransitive(a.s, b.s, c.s, CmpChar);
    }
  }

  lemma CmpValueIsComparison()
    ensures IsComparison(CmpValue)
  {
    forall a, b ensures -1 <= CmpValue(a, b) <= 1 && (CmpValue(a, b) == 0 <==> a == b) &&
                        CmpValue(a, b) == -CmpValue(b, a) {
      CmpValuePair(a, b);
    }
    forall a, b, c | CmpValue(a, b) < 0 && CmpValue(b, c) < 0 ensures CmpValue(a, c) < 0 {
      CmpValueTriple(a, b, c);
    }
  }

  /** Two records compare equal exactly when all ten attributes are equal. */
  lemma CmpZeroIffEqual(a: ObsRecord, b: ObsRecord)
    ensures Cmp(a, b) == 0 <==> a == b
  {
    CmpValueIsComparison();
    LexZero(Key(a), Key(b), CmpValue);
    if Key(a) == Key(b) {
      assert Key(a)[0] == Key(b)[0] && Key(a)[7] == Key(b)[7] && Key(a)[8] == Key(b)[8];
    }
  }

  /** Swapping the operands negates the comparison; the result is -1, 0 or 1. */
  lemma CmpAntisymmetric(a: ObsRecord, b: ObsRecord)
    ensures -1 <= Cmp(a, b) <= 1
    ensures Cmp(a, b) == -Cmp(b, a)
  {
    CmpValueIsComparison();
    LexZero(Key(a), Key(b), CmpValue);
  }

  /** Sorting records is consistent: the ordering is transitive. */
  lemma CmpTransitive(a: ObsRecord, b: ObsRecord, c: ObsRecord)
    requires Cmp(a, b) < 0 && Cmp(b, c) < 0
    ensures Cmp(a, c) < 0
  {
    CmpValueIsComparison();
    LexTransitive(Key(a), Key(b), Key(c), CmpValue);
  }

  /** The order is lexicographic: `a` sorts first exactly when the first attribute where they
      differ is smaller in `a`. */
  lemma CmpLexicographic(a: ObsRecord, b: ObsRecord)
    ensures Cmp(a, b) < 0 <==>
      exists i :: 0 <= i < 10 && Key(a)[..i] == Key(b)[..i] && CmpValue(Key(a)[i], Key(b)[i]) < 0
  {
    CmpValueIsComparison();
    LexLessAt(Key(a), Key(b), CmpValue);
  }

  // ---------------------------------------------------------------------------
  // print_record
  // ---------------------------------------------------------------------------

  /** `"%s" % x` for a string attribute: an unset one is written as the text None. */
  function Show(o: Option<string>): string {
    if o.None? then "None" else o.value
  }

  /** The text of each attribute, in column order: `%s` for text, `%.1f` for exptime, `%d` for lnrs. */
  function FieldTexts(r: ObsRecord): (f: seq<string>)
    requires r.exptime.Some? && r.lnrs.Some?
    ensures |f| == 10
  {
    seq(10, i requires 0 <= i < 10 => FieldText(r, i))
  }

  /** The text of column `i`. */
  function FieldText(r: ObsRecord, i: nat): string
    requires r.exptime.Some? && r.lnrs.Some? && i < 10
  {
    match i
    case 0 => Show(r.targetname)
    case 1 => Show(r.rootname)
    case 2 => Show(r.band)
    case 3 => Show(r.grism)
    case 4 => Show(r.dataType)
    case 5 => Show(r.applyto)
    case 6 => Show(r.filerange)
    case 7 => FormatTenths(r.exptime.value)
    case 8 => ShowInt(r.lnrs.value)
    case _ => Show(r.rdmode)
  }

  /** Column `i` of a printable record is the text of its i-th attribute. */
  lemma FieldTextsAt(r: ObsRecord)
    requires r.exptime.Some? && r.lnrs.Some?
    ensures forall i :: 0 <= i < 10 ==> FieldTexts(r)[i] == FieldText(r, i)
  {
  }

  /** Both numbers are set, so print_record's `%.1f` and `%d` can format them. */
  predicate Printable(r: ObsRecord) {
    r.exptime.Some? && r.lnrs.Some?
  }

  /** The separators of print_record's format `"%s\t%s\t%s\t%s\t%s\t\t%s\t%s\t\t%.1f\t%d\t%s"`:
      a double tab after datatype and after filerange. */
  const RecordSeps: seq<string> := ["\t", "\t", "\t", "\t", "\t\t", "\t", "\t\t", "\t", "\t"]

  /** `print_record`: the ten columns in fixed order, joined by the format's tabs.
      Only an unset exptime or lnrs makes the formatting fail. */
  function PrintRecord(r: ObsRecord): (s: Result<string>)
    ensures s.Success? <==> Printable(r)
    ensures s.Failure? ==> s.error == TypeError
  {
    if r.exptime.None? || r.lnrs.None? then Failure(TypeError)
    else Success(Joined(FieldTexts(r), RecordSeps))
  }

  // ---------------------------------------------------------------------------
  // read_record
  // ---------------------------------------------------------------------------

  predicate IsWord(o: Option<string>) {
    o.Some? && o.value != [] && NoSpace(o.value)
  }

  /** A record the table format can carry: every text attribute a non-empty whitespace-free
      word, and both numbers set and non-negative. */
  predicate Serialisable(r: ObsRecord) {
    && IsWord(r.targetname) && IsWord(r.rootname) && IsWord(r.band) && IsWord(r.grism)
    && IsWord(r.dataType) && IsWord(r.applyto) && IsWord(r.filerange) && IsWord(r.rdmode)
    && r.exptime.Some? && r.exptime.value >= 0 && r.lnrs.Some? && r.lnrs.value >= 0
  }

  /** `read_record(line)`: exactly ten whitespace-separated tokens, assigned by position;
      exptime goes through float() and lnrs through int(). */
  function ReadRecord(line: string): (r: Result<ObsRecord>)
    ensures r.Success? <==> |Split(line)| == 10 && ParseTenths(Split(line)[7]).Some? &&
                            ParseNat(Split(line)[8]).Some?
    ensures r.Failure? ==> r.error == ValueError
  {
    var t := Split(line);
    if |t| != 10 then Failure(ValueError)
    else
      var e := ParseTenths(t[7]);
      var n := ParseNat(t[8]);
      if e.None? || n.None? then Failure(ValueError)
      else Success(ObsRecord(Some(t[0]), Some(t[1]), Some(t[2]), Some(t[3]), Some(t[4]), Some(t[5]),
                             Some(t[6]), Some(e.value), Some(n.value), Some(t[9])))
  }

  /** A record read from a line is serialisable, and its numbers are the converted eighth and
      ninth tokens. */
  lemma ReadRecordValues(line: string)
    requires ReadRecord(line).Success?
    ensures Serialisable(ReadRecord(line).value)
    ensures ReadRecord(line).value.exptime == Some(ParseTenths(Split(line)[7]).value)
    ensures ReadRecord(line).value.lnrs == Some(ParseNat(Split(line)[8]).value)
  {
  }

  /** Each text column of a line that reads as a record prints back as the token it came from. */
  lemma ReadRecordColumns(line: string)
    requires ReadRecord(line).Success?
    ensures forall i :: 0 <= i < 10 && i != 7 && i != 8 ==> FieldText(ReadRecord(line).value, i) == Split(line)[i]
  {
  }

  lemma FieldTextsAreWords(r: ObsRecord)
    requires Serialisable(r)
    ensures forall i :: 0 <= i < 10 ==> FieldTexts(r)[i] != [] && NoSpace(FieldTexts(r)[i])
  {
    FieldTextsAt(r);
    FormatTenthsRoundTrip(r.exptime.value);
    ShowNatNoSpace(r.lnrs.value);
  }

  /** Reading back a printed record, with any trailing whitespace such as the line's '\n',
      gives the same record. The double tabs are harmless: split() merges whitespace runs. */
  lemma RoundTrip(r: ObsRecord, tail: string)
    requires Serialisable(r)
    requires AllSpace(tail)
    ensures ReadRecord(PrintRecord(r).value + tail) == Success(r)
  {
    FieldTextsAreWords(r);
    SplitJoined(FieldTexts(r), RecordSeps, tail);
    ReadsColumnsBack(r, PrintRecord(r).value + tail);
  }

  /** A line whose tokens are exactly the printed columns of a serialisable record reads as it. */
  lemma ReadsColumnsBack(r: ObsRecord, line: string)
    requires Serialisable(r) && Split(line) == FieldTexts(r)
    ensures ReadRecord(line) == Success(r)
  {
    FieldTextsAt(r);
    FormatTenthsRoundTrip(r.exptime.value);
    ShowNatRoundTrip(r.lnrs.value);
  }

  /** A printed serialisable record starts with the first character of its target name. */
  lemma PrintedRecordStart(r: ObsRecord)
    requires Serialisable(r)
    ensures |PrintRecord(r).value| > 0 && PrintRecord(r).value[0] == r.targetname.value[0]
  {
    FieldTextsAt(r);
  }

  /** A printed serialisable record is a single line. */
  lemma PrintedRecordIsOneLine(r: ObsRecord)
    requires Serialisable(r)
    ensures '\n' !in PrintRecord(r).value
  {
    FieldTextsAreWords(r);
    JoinedHasNoNewline(FieldTexts(r), RecordSeps);
  }

  // ---------------------------------------------------------------------------
  // The record and line of utils/tests/test_obstable.py
  // ---------------------------------------------------------------------------

  const TestRecord := ObsRecord(Some("SDSSJ000429.46-002142.8"), Some("S20130719"), Some("HK"),
                                Some("HK"), Some("Science"), Some("None"), Some("496-499"),
                                Some(900), Some(6), Some("faint"))

  /** The test's expected line: the ten values separated by single tabs. */
  const TestFields: seq<string> := ["SDSSJ000429.46-002142.8", "S20130719", "HK", "HK", "Science",
                                    "None", "496-499", "90.0", "6", "faint"]
  const SingleTabs: seq<string> := ["\t", "\t", "\t", "\t", "\t", "\t", "\t", "\t", "\t"]
  const TestLine: string := Joined(TestFields, SingleTabs)

  /** Constructing with exptime=90 and lnrs=6 (Python ints) gives 90.0 seconds and 6 reads. */
  lemma TestRecordConstruction()
    ensures NewRecord(Some("SDSSJ000429.46-002142.8"), Some("S20130719"), Some("HK"), Some("HK"),
                      Some("Science"), Some("None"), Some("496-499"), Some(Int(90)), Some(Int(6)),
                      Some("faint")) == Success(TestRecord)
  {
  }

  /** The test's expected line, with single tabs, parses to the test record. */
  lemma TestLineReadsAsTestRecord()
    ensures ReadRecord(TestLine) == Success(TestRecord)
  {
    TestLineSplits();
    ReadsTestFields(TestLine);
  }

  lemma TestLineSplits()
    ensures Split(TestLine) == TestFields
  {
    TestFieldsAreWords();
    SplitJoined(TestFields, SingleTabs, "");
    assert TestLine + "" == TestLine;
  }

  lemma ReadsTestFields(line: string)
    requires Split(line) == TestFields
    ensures ReadRecord(line) == Success(TestRecord)
  {
    TestNumbers();
  }

  lemma TestFieldsAreWords()
    ensures forall i :: 0 <= i < 10 ==> TestFields[i] != [] && NoSpace(TestFields[i])
  {
  }

  lemma TestNumbers()
    ensures ParseTenths("90.0") == Some(900)
    ensures ParseNat("6") == Some(6)
    ensures FormatTenths(900) == "90.0" && ShowInt(6) == "6"
  {
    assert ShowNat(90) == "90";
    assert FormatTenths(900) == "90.0";
    FormatTenthsRoundTrip(900);
    ShowNatRoundTrip(6);
  }

  function TotalLength(s: seq<string>): nat {
    if s == [] then 0 else |s[0]| + TotalLength(s[1..])
  }

  lemma {:induction false} JoinedLength(fields: seq<string>, seps: seq<string>)
    requires |fields| == |seps| + 1
    ensures |Joined(fields, seps)| == TotalLength(fields) + TotalLength(seps)
    decreases |seps|
  {
    if |seps| > 0 {
      JoinedLength(fields[1..], seps[1..]);
    } else {
      assert fields[1..] == [];
    }
  }

  lemma PrintedTestRecord()
    ensures PrintRecord(TestRecord) == Success(Joined(TestFields, RecordSeps))
    ensures Serialisable(TestRecord)
  {
    TestNumbers();
    var f := FieldTexts(TestRecord);
    assert f[7] == TestFields[7] && f[8] == TestFields[8];
    assert f == TestFields;
    TestRecordIsSerialisable();
  }

  lemma TestRecordIsSerialisable()
    ensures Serialisable(TestRecord)
  {
    TestFieldsAreWords();
    assert IsWord(Some(TestFields[0])) && IsWord(Some(TestFields[1])) && IsWord(Some(TestFields[2]));
    assert IsWord(Some(TestFields[4])) && IsWord(Some(TestFields[5])) && IsWord(Some(TestFields[6]));
    assert IsWord(Some(TestFields[9]));
  }

  lemma SeparatorLengths()
    ensures TotalLength(RecordSeps) == TotalLength(SingleTabs) + 2
  {
  }

  /** print_record does not produce the test's expected line (it writes two more tabs),
      yet both lines read back as the same record. */
  lemma PrintedTestRecordDiffersFromTestLine()
    ensures PrintRecord(TestRecord).Success?
    ensures |PrintRecord(TestRecord).value| == |TestLine| + 2
    ensures ReadRecord(PrintRecord(TestRecord).value) == ReadRecord(TestLine)
  {
    PrintedTestRecordLength();
    PrintedTestRecordReadsBack();
  }

  lemma PrintedTestRecordLength()
    ensures PrintRecord(TestRecord).Success?
    ensures |PrintRecord(TestRecord).value| == |TestLine| + 2
  {
    PrintedTestRecord();
    JoinedLength(TestFields, RecordSeps);
    JoinedLength(TestFields, SingleTabs);
    SeparatorLengths();
  }

  lemma PrintedTestRecordReadsBack()
    ensures PrintRecord(TestRecord).Success?
    ensures ReadRecord(PrintRecord(TestRecord).value) == ReadRecord(TestLine)
  {
    PrintedTestRecord();
    TestLineReadsAsTestRecord();
    RoundTrip(TestRecord, "");
    assert PrintRecord(TestRecord).value + "" == PrintRecord(TestRecord).value;
  }

}
