/** The bookkeeping helpers the table is filled from: the file-range expander, the table of
    prompts asked for a new record, and the conversion of the answers into a record. */
module Bookkeeping {
  import opened Wrappers
  import opened PyText
  import opened ObsRecords

  // ---------------------------------------------------------------------------
  // parse_filerange
  // ---------------------------------------------------------------------------

  /** The integers lo, lo + 1, ..., hi in that order; nothing when lo > hi. */
  function Range(lo: int, hi: int): (r: seq<int>)
    ensures |r| == if lo <= hi then hi - lo + 1 else 0
    ensures forall i :: 0 <= i < |r| ==> r[i] == lo + i
    decreases hi - lo
  {
    if lo > hi then [] else [lo] + Range(lo + 1, hi)
  }

  predicate StrictlyAscending(s: seq<int>) {
    forall i, j :: 0 <= i < j < |s| ==> s[i] < s[j]
  }

  predicate AllNatural(s: seq<int>) {
    forall i :: 0 <= i < |s| ==> s[i] >= 0
  }

  /** A range holds exactly the integers between its bounds, each once and in ascending order. */
  lemma RangeMembers(lo: int, hi: int)
    ensures StrictlyAscending(Range(lo, hi))
    ensures forall x :: x in Range(lo, hi) <==> lo <= x <= hi
  {
    var r := Range(lo, hi);
    forall x | lo <= x <= hi ensures x in r {
      assert r[x - lo] == x;
    }
  }

  /** Counting one further keeps everything already produced. */
  lemma RangeGrows(lo: int, n: int)
    requires lo <= n
    ensures Range(lo, n) == Range(lo, n - 1) + [n]
  {
  }

  /** One comma-separated token: `N` gives [N], `A-B` gives the range from A to B, more
      than one '-' raises RuntimeError, and a part that is not a number raises ValueError. */
  function ExpandToken(tok: string): Result<seq<int>> {
    var b := SplitOn(tok, '-');
    if |b| == 1 then
      if ParseNat(b[0]).Some? then Success([ParseNat(b[0]).value]) else Failure(ValueError)
    else if |b| == 2 then
      if ParseNat(b[0]).None? || ParseNat(b[1]).None? then Failure(ValueError)
      else Success(Range(ParseNat(b[0]).value, ParseNat(b[1]).value))
    else Failure(RuntimeError)
  }

  /** Every token yields natural numbers in strictly ascending order, or fails with ValueError
      or RuntimeError. */
  lemma ExpandTokenShape(tok: string)
    ensures ExpandToken(tok).Success? ==> StrictlyAscending(ExpandToken(tok).value) && AllNatural(ExpandToken(tok).value)
    ensures ExpandToken(tok).Failure? ==> ExpandToken(tok).error == ValueError || ExpandToken(tok).error == RuntimeError
  {
    var b := SplitOn(tok, '-');
    if |b| == 2 && ParseNat(b[0]).Some? && ParseNat(b[1]).Some? {
      RangeMembers(ParseNat(b[0]).value, ParseNat(b[1]).value);
    }
  }

  /** The items expanded one by one with `f` and concatenated in order; the first item that
      fails decides. */
  function ConcatAll<T>(items: seq<T>, f: T -> Result<seq<int>>): Result<seq<int>>
    decreases |items|
  {
    if items == [] then Success([])
    else if f(items[0]).Failure? then f(items[0])
    else if ConcatAll(items[1..], f).Failure? then ConcatAll(items[1..], f)
    else Success(f(items[0]).value + ConcatAll(items[1..], f).value)
  }

  /** `parse_filerange(filerange)` as a value: split at ',' and expand each token. */
  function Expand(filerange: string): Result<seq<int>> {
    ConcatAll(SplitOn(filerange, ','), ExpandToken)
  }

  /** Expanding two runs of items is expanding each; an error in the first run wins. */
  lemma {:induction false} ConcatAllAppend<T>(a: seq<T>, b: seq<T>, f: T -> Result<seq<int>>)
    ensures ConcatAll(a + b, f) ==
              if ConcatAll(a, f).Failure? then ConcatAll(a, f)
              else if ConcatAll(b, f).Failure? then ConcatAll(b, f)
              else Success(ConcatAll(a, f).value + ConcatAll(b, f).value)
    decreases |a|
  {
    if a == [] {
      assert a + b == b;
      if ConcatAll(b, f).Success? {
        assert [] + ConcatAll(b, f).value == ConcatAll(b, f).value;
      }
    } else {
      assert (a + b)[0] == a[0];
      assert (a + b)[1..] == a[1..] + b;
      ConcatAllAppend(a[1..], b, f);
      if f(a[0]).Success? && ConcatAll(a[1..], f).Success? && ConcatAll(b, f).Success? {
        var x, y, z := f(a[0]).value, ConcatAll(a[1..], f).value, ConcatAll(b, f).value;
        assert x + (y + z) == (x + y) + z;
      }
    }
  }

  lemma ConcatOne<T>(x: T, f: T -> Result<seq<int>>)
    ensures ConcatAll([x], f) == f(x)
  {
    assert [x][1..] == [];
    if f(x).Success? {
      assert f(x).value + [] == f(x).value;
    }
  }

  /** The outer loop after item i: either one more item's numbers, or the item's error. */
  lemma ConcatAllStep<T>(items: seq<T>, i: nat, f: T -> Result<seq<int>>)
    requires i < |items| && ConcatAll(items[..i], f).Success?
    ensures f(items[i]).Success? ==>
              ConcatAll(items[..i + 1], f) == Success(ConcatAll(items[..i], f).value + f(items[i]).value)
    ensures f(items[i]).Failure? ==> ConcatAll(items, f) == f(items[i])
  {
    assert items[..i + 1] == items[..i] + [items[i]];
    ConcatAllAppend(items[..i], [items[i]], f);
    ConcatOne(items[i], f);
    if f(items[i]).Failure? {
      assert items == items[..i] + items[i..];
      ConcatAllAppend(items[..i], items[i..], f);
      assert items[i..] == [items[i]] + items[i + 1..];
      ConcatAllAppend([items[i]], items[i + 1..], f);
    }
  }

  /** `parse_filerange`: for each comma-separated token, append what the token denotes; the
      first token that fails ends the call with its exception. */
  method ParseFilerange(filerange: string) returns (r: Result<seq<int>>)
    ensures r == Expand(filerange)
  {
    var filenumbers: seq<int> := [];
    var ranges := SplitOn(filerange, ',');
    assert ranges[..0] == [];
    var i := 0;
    while i < |ranges|
      invariant 0 <= i <= |ranges|
      invariant ConcatAll(ranges[..i], ExpandToken) == Success(filenumbers)
    {
      ConcatAllStep(ranges, i, ExpandToken);
      var step := AppendToken(filenumbers, ranges[i]);
      if step.Failure? {
        return step;
      }
      filenumbers := step.value;
      i := i + 1;
    }
    assert ranges[..i] == ranges;
    return Success(filenumbers);
  }

  /** The body of parse_filerange's loop for one token: split it at '-' and append either its
      one number or, counting up from the first bound to the second, every number of its range. */
  method AppendToken(filenumbers: seq<int>, tok: string) returns (r: Result<seq<int>>)
    ensures ExpandToken(tok).Failure? ==> r == ExpandToken(tok)
    ensures ExpandToken(tok).Success? ==> r == Success(filenumbers + ExpandToken(tok).value)
  {
    var boundaries := SplitOn(tok, '-');
    if |boundaries| == 1 {
      var n := ParseNat(boundaries[0]);
      if n.None? {
        return Failure(ValueError);
      }
      return Success(filenumbers + [n.value]);
    } else if |boundaries| == 2 {
      var lo := ParseNat(boundaries[0]);
      var hi := ParseNat(boundaries[1]);
      if lo.None? || hi.None? {
        return Failure(ValueError);
      }
      var out := filenumbers;
      var n: int := lo.value;
      while n <= hi.value
        invariant lo.value <= n && (n <= hi.value + 1 || n == lo.value)
        invariant out == filenumbers + Range(lo.value, n - 1)
      {
        RangeGrows(lo.value, n);
        out := out + [n];
        n := n + 1;
      }
      assert Range(lo.value, n - 1) == Range(lo.value, hi.value);
      return Success(out);
    } else {
      return Failure(RuntimeError);
    }
  }

  // ---------------------------------------------------------------------------
  // Properties of the expansion
  // ---------------------------------------------------------------------------

  lemma DigitsLackChar(s: string, c: char)
    requires IsDigits(s) && !IsDigit(c)
    ensures c !in s
  {
  }

  /** A single number denotes itself. */
  lemma ExpandNumber(n: nat)
    ensures Expand(ShowNat(n)) == Success([n])
  {
    var tok := ShowNat(n);
    ShowNatRoundTrip(n);
    DigitsLackChar(tok, ',');
    DigitsLackChar(tok, '-');
    assert SplitOn(tok, ',') == [tok];
    assert SplitOn(tok, '-') == [tok];
    assert ExpandToken(tok) == Success([n]);
    ConcatOne(tok, ExpandToken);
  }

  /** `A-B` denotes A, A + 1, ..., B, and nothing when A > B. */
  lemma ExpandSpan(a: nat, b: nat)
    ensures Expand(ShowNat(a) + "-" + ShowNat(b)) == Success(Range(a, b))
  {
    var x, y := ShowNat(a), ShowNat(b);
    var tok := x + "-" + y;
    ShowNatRoundTrip(a);
    ShowNatRoundTrip(b);
    DigitsLackChar(x, '-');
    DigitsLackChar(y, '-');
    DigitsLackChar(x, ',');
    DigitsLackChar(y, ',');
    assert ',' !in tok;
    assert SplitOn(tok, ',') == [tok];
    SplitOnFirst(x, '-', y);
    assert SplitOn(tok, '-') == [x, y];
    assert ExpandToken(tok) == Success(Range(a, b));
    ConcatOne(tok, ExpandToken);
  }

  /** Joining two file ranges with ',' concatenates their numbers, in that order; the first
      error wins. */
  lemma ExpandJoin(x: string, y: string)
    ensures Expand(x + "," + y) ==
              if Expand(x).Failure? then Expand(x)
              else if Expand(y).Failure? then Expand(y)
              else Success(Expand(x).value + Expand(y).value)
  {
    SplitOnConcat(x, ',', y);
    ConcatAllAppend(SplitOn(x, ','), SplitOn(y, ','), ExpandToken);
  }

  /** A token with two or more '-' raises RuntimeError, whatever its parts are. */
  lemma ExpandTooManyDashes(tok: string)
    requires ',' !in tok && |SplitOn(tok, '-')| >= 3
    ensures Expand(tok) == Failure(RuntimeError)
  {
  }

  /** One element of a file range as people write it: a number, or a span `first-last`. */
  datatype Item = Number(n: nat) | Span(first: nat, last: nat)

  function ItemText(it: Item): string {
    match it
    case Number(n) => ShowNat(n)
    case Span(a, b) => ShowNat(a) + "-" + ShowNat(b)
  }

  function ItemNumbers(it: Item): seq<int> {
    match it
    case Number(n) => [n]
    case Span(a, b) => Range(a, b)
  }

  /** The text of a non-empty list of items: their texts joined by ','. */
  function FileRangeText(items: seq<Item>): string
    requires items != []
  {
    if |items| == 1 then ItemText(items[0]) else ItemText(items[0]) + "," + FileRangeText(items[1..])
  }

  function AllNumbers(items: seq<Item>): seq<int> {
    if items == [] then [] else ItemNumbers(items[0]) + AllNumbers(items[1..])
  }

  /** Every written file range expands to the numbers of its items in the order written:
      no sorting and no removal of duplicates. */
  lemma {:induction false} ExpandFileRangeText(items: seq<Item>)
    requires items != []
    ensures Expand(FileRangeText(items)) == Success(AllNumbers(items))
    decreases |items|
  {
    var first := items[0];
    assert Expand(ItemText(first)) == Success(ItemNumbers(first)) by {
      match first
      case Number(n) => ExpandNumber(n);
      case Span(a, b) => ExpandSpan(a, b);
    }
    if |items| == 1 {
      assert items[1..] == [];
      assert AllNumbers(items) == ItemNumbers(first) + [];
      assert ItemNumbers(first) + [] == ItemNumbers(first);
    } else {
      ExpandFileRangeText(items[1..]);
      ExpandJoin(ItemText(first), FileRangeText(items[1..]));
    }
  }

  /** A token fails with ValueError exactly when it has at most one '-' and some part of it
      is not a run of decimal digits. */
  lemma ExpandTokenValueError(tok: string)
    ensures ExpandToken(tok) == Failure(ValueError) <==>
              |SplitOn(tok, '-')| <= 2 &&
              exists i :: 0 <= i < |SplitOn(tok, '-')| && !IsDigits(SplitOn(tok, '-')[i])
  {
  }

  // The literal cases below take their text as a parameter fixed by `requires`, which keeps
  // the literal out of the solver's view until the lemma's own steps need it.

  /** A reversed span is empty. */
  lemma ExpandReversedSpan(s: string)
    requires s == "221-218"
    ensures Expand(s) == Success([])
  {
    assert s == "221" + "-" + "218";
    assert ShowNat(22) == "22" && ShowNat(221) == "221";
    assert ShowNat(21) == "21" && ShowNat(218) == "218";
    ExpandSpan(221, 218);
  }

  /** Two dashes raise RuntimeError. */
  lemma ExpandTwoDashes(s: string)
    requires s == "1-2-3"
    ensures Expand(s) == Failure(RuntimeError)
  {
    TwoDashesPieces(s);
    TwoDashesNoComma(s);
    ExpandTooManyDashes(s);
  }

  lemma TwoDashesPieces(s: string)
    requires s == "1-2-3"
    ensures |SplitOn(s, '-')| >= 3
  {
    var one, two, three := "1", "2", "3";
    var rest := two + ['-'] + three;
    assert s == one + ['-'] + rest;
    SplitOnFirst(two, '-', three);
    SplitOnFirst(one, '-', rest);
  }

  lemma TwoDashesNoComma(s: string)
    requires s == "1-2-3"
    ensures ',' !in s
  {
    assert forall c :: c in s ==> c in "123-";
  }

  /** An empty file range raises ValueError. */
  lemma ExpandEmpty(s: string)
    requires s == ""
    ensures Expand(s) == Failure(ValueError)
  {
    assert SplitOn(s, ',') == [s];
    ConcatOne(s, ExpandToken);
  }

  /** A span without its upper bound raises ValueError. */
  lemma ExpandMissingUpper(s: string)
    requires s == "5-"
    ensures Expand(s) == Failure(ValueError)
  {
    assert s == "5" + ['-'] + "";
    SplitOnFirst("5", '-', "");
    ConcatOne(s, ExpandToken);
  }

  /** A span without its lower bound raises ValueError. */
  lemma ExpandMissingLower(s: string)
    requires s == "-5"
    ensures Expand(s) == Failure(ValueError)
  {
    assert s == "" + ['-'] + "5";
    SplitOnFirst("", '-', "5");
    ConcatOne(s, ExpandToken);
  }

  /** A token that is not a number raises ValueError. */
  lemma ExpandNotANumber(s: string)
    requires s == "a"
    ensures Expand(s) == Failure(ValueError)
  {
    assert SplitOn(s, ',') == [s];
    ConcatOne(s, ExpandToken);
  }

  // ---------------------------------------------------------------------------
  // get_req_input_list
  // ---------------------------------------------------------------------------

  /** A prompt dictionary: the question, a header flag stored under `flagKey`, and the id of
      the input it asks for. */
  datatype Prompt = Prompt(prompt: string, flagKey: string, flag: bool, id: string)

  /** The ids of the prompts, in the order the user is asked. */
  const InputOrder: seq<string> :=
    ["rootname", "filerange", "applyto", "datatype", "targetname", "band", "grism", "exptime",
     "lnrs", "rdmode"]

  /** The inputs that can be read from a file header. */
  const HeaderIds: set<string> := {"band", "grism", "exptime", "lnrs", "rdmode"}

  /** `prompt['in_hdr']`: whether the value can be read from the header. */
  function InHeader(p: Prompt): Result<bool> {
    if p.flagKey == "in_hdr" then Success(p.flag) else Failure(KeyError("in_hdr"))
  }

  /** `get_req_input_list()`: ten prompts, one per record field, in the order asked. Every
      prompt but applyto has the header flag, set exactly for the header inputs; applyto's
      flag is spelt 'in_hrd', so looking up its 'in_hdr' raises KeyError. */
  function ReqInputList(): (r: seq<Prompt>)
    ensures |r| == |InputOrder|
    ensures forall i :: 0 <= i < |r| ==> r[i].id == InputOrder[i]
    ensures forall i :: 0 <= i < |r| && i != 2 ==> InHeader(r[i]) == Success(InputOrder[i] in HeaderIds)
    ensures InputOrder[2] == "applyto" && r[2].flagKey == "in_hrd" && !r[2].flag
    ensures InHeader(r[2]) == Failure(KeyError("in_hdr"))
  {
    [Prompt("File root name (e.g. S201202012)", "in_hdr", false, "rootname"),
     Prompt("filerange string (e.g. 201-205)", "in_hdr", false, "filerange"),
     Prompt("Applies to (e.g. Science)", "in_hrd", false, "applyto"),
     Prompt("Type of observation (e.g. Flat)", "in_hdr", false, "datatype"),
     Prompt("Name of target", "in_hdr", false, "targetname"),
     Prompt("Band", "in_hdr", true, "band"),
     Prompt("Grism", "in_hdr", true, "grism"),
     Prompt("Exposure Time", "in_hdr", true, "exptime"),
     Prompt("LNRS", "in_hdr", true, "lnrs"),
     Prompt("Read mode (e.g. Faint, Bright)", "in_hdr", true, "rdmode")]
  }

  // ---------------------------------------------------------------------------
  // create_record
  // ---------------------------------------------------------------------------

  /** The keys create_record reads before its lnrs line, in the order it reads them. */
  const CopiedKeys: seq<string> :=
    ["targetname", "rootname", "band", "grism", "datatype", "applyto", "filerange", "exptime"]

  /** Every key create_record reads, in order. */
  const RecordKeys: seq<string> := CopiedKeys + ["lnrs", "rdmode"]

  /** The prompts ask for exactly the keys create_record reads, each once. */
  lemma PromptsCoverRecordKeys()
    ensures multiset(InputOrder) == multiset(RecordKeys)
  {
    OrdersInParts();
    FirstPromptsInParts();
  }

  lemma FirstPromptsInParts()
    ensures multiset(["rootname", "filerange", "applyto", "datatype"]) ==
              multiset(["rootname"]) + multiset(["datatype", "applyto", "filerange"])
  {
  }

  lemma OrdersInParts()
    ensures InputOrder == ["rootname", "filerange", "applyto", "datatype"] + ["targetname"] +
                          ["band", "grism"] + ["exptime", "lnrs", "rdmode"]
    ensures RecordKeys == ["targetname"] + ["rootname"] + ["band", "grism"] +
                          ["datatype", "applyto", "filerange"] + ["exptime", "lnrs", "rdmode"]
  {
  }

  /** The first of `keys` missing from the dictionary, if any. */
  function FirstMissing(keys: seq<string>, inputs: map<string, string>): (m: Option<string>)
    ensures m.None? <==> forall i :: 0 <= i < |keys| ==> keys[i] in inputs
    ensures m.Some? ==> exists i :: 0 <= i < |keys| && keys[i] == m.value && keys[i] !in inputs &&
                                    forall j :: 0 <= j < i ==> keys[j] in inputs
    decreases |keys|
  {
    if keys == [] then None
    else if keys[0] !in inputs then Some(keys[0])
    else
      var m := FirstMissing(keys[1..], inputs);
      if m.Some? then
        assert exists i :: 0 <= i < |keys| && keys[i] == m.value && keys[i] !in inputs &&
                           forall j :: 0 <= j < i ==> keys[j] in inputs by {
          var i :| 0 <= i < |keys[1..]| && keys[1..][i] == m.value && keys[1..][i] !in inputs &&
                   forall j :: 0 <= j < i ==> keys[1..][j] in inputs;
          assert keys[i + 1] == keys[1..][i];
          forall j | 0 <= j < i + 1 ensures keys[j] in inputs {
            if j > 0 { assert keys[j] == keys[1..][j - 1]; }
          }
        }
        m
      else
        assert forall i :: 0 <= i < |keys| ==> keys[i] in inputs by {
          forall i | 0 <= i < |keys| ensures keys[i] in inputs {
            if i > 0 { assert keys[i] == keys[1..][i - 1]; }
          }
        }
        None
  }

  /** The exception create_record raises: KeyError for the first missing key up to exptime,
      ValueError when exptime is not a number, and otherwise NameError, because the lnrs line
      calls `integer`, which is defined nowhere. */
  function CreateRecordError(inputs: map<string, string>): (e: Error)
    ensures e.KeyError? ==> e.key in CopiedKeys && e.key !in inputs
    ensures FirstMissing(CopiedKeys, inputs).Some? <==> e.KeyError?
    ensures FirstMissing(CopiedKeys, inputs).Some? ==> e == KeyError(FirstMissing(CopiedKeys, inputs).value)
    ensures e == ValueError <==>
              FirstMissing(CopiedKeys, inputs).None? && "exptime" in inputs && ParseTenths(inputs["exptime"]).None?
    ensures e == NameError("integer") <==>
              (forall i :: 0 <= i < |CopiedKeys| ==> CopiedKeys[i] in inputs) &&
              "exptime" in inputs && ParseTenths(inputs["exptime"]).Some?
  {
    var m := FirstMissing(CopiedKeys, inputs);
    if m.Some? then KeyError(m.value)
    else
      CopiedKeysPresent(inputs);
      if ParseTenths(inputs["exptime"]).None? then ValueError else NameError("integer")
  }

  /** When none of the copied keys is missing, each of them is in the dictionary. */
  lemma CopiedKeysPresent(inputs: map<string, string>)
    requires FirstMissing(CopiedKeys, inputs).None?
    ensures "targetname" in inputs && "rootname" in inputs && "band" in inputs && "grism" in inputs
    ensures "datatype" in inputs && "applyto" in inputs && "filerange" in inputs && "exptime" in inputs
  {
    assert CopiedKeys[0] in inputs && CopiedKeys[1] in inputs && CopiedKeys[2] in inputs;
    assert CopiedKeys[3] in inputs && CopiedKeys[4] in inputs && CopiedKeys[5] in inputs;
    assert CopiedKeys[6] in inputs && CopiedKeys[7] in inputs;
  }

  /** All keys are present when the copied ones are and lnrs and rdmode are too. */
  lemma RecordKeysPresent(inputs: map<string, string>)
    ensures (forall i :: 0 <= i < |RecordKeys| ==> RecordKeys[i] in inputs) <==>
              FirstMissing(CopiedKeys, inputs).None? && "lnrs" in inputs && "rdmode" in inputs
  {
    assert forall i :: 0 <= i < |CopiedKeys| ==> RecordKeys[i] == CopiedKeys[i];
    assert RecordKeys[8] == "lnrs" && RecordKeys[9] == "rdmode";
  }

  /** `create_record(user_inputs)` as written: a fresh record is filled field by field from
      the same-named entries; the lnrs line raises NameError, so no record is ever returned. */
  method CreateRecord(inputs: map<string, string>) returns (r: Result<ObsRecord>)
    ensures r.Failure?
    ensures r.error == CreateRecordError(inputs)
  {
    ghost var unread := CopiedKeys;
    var record := ObsRecord(None, None, None, None, None, None, None, None, None, None);
    if "targetname" !in inputs { return Failure(KeyError("targetname")); }
    record := record.(targetname := Some(inputs["targetname"]));
    unread := unread[1..];
    assert FirstMissing(CopiedKeys, inputs) == FirstMissing(unread, inputs);
    if "rootname" !in inputs { return Failure(KeyError("rootname")); }
    record := record.(rootname := Some(inputs["rootname"]));
    unread := unread[1..];
    assert FirstMissing(CopiedKeys, inputs) == FirstMissing(unread, inputs);
    if "band" !in inputs { return Failure(KeyError("band")); }
    record := record.(band := Some(inputs["band"]));
    unread := unread[1..];
    assert FirstMissing(CopiedKeys, inputs) == FirstMissing(unread, inputs);
    if "grism" !in inputs { return Failure(KeyError("grism")); }
    record := record.(grism := Some(inputs["grism"]));
    unread := unread[1..];
    assert FirstMissing(CopiedKeys, inputs) == FirstMissing(unread, inputs);
    if "datatype" !in inputs { return Failure(KeyError("datatype")); }
    record := record.(dataType := Some(inputs["datatype"]));
    unread := unread[1..];
    assert FirstMissing(CopiedKeys, inputs) == FirstMissing(unread, inputs);
    if "applyto" !in inputs { return Failure(KeyError("applyto")); }
    record := record.(applyto := Some(inputs["applyto"]));
    unread := unread[1..];
    assert FirstMissing(CopiedKeys, inputs) == FirstMissing(unread, inputs);
    if "filerange" !in inputs { return Failure(KeyError("filerange")); }
    record := record.(filerange := Some(inputs["filerange"]));
    unread := unread[1..];
    assert FirstMissing(CopiedKeys, inputs) == FirstMissing(unread, inputs);
    if "exptime" !in inputs { return Failure(KeyError("exptime")); }
    unread := unread[1..];
    assert FirstMissing(CopiedKeys, inputs) == None;
    var exptime := ParseTenths(inputs["exptime"]);
    if exptime.None? { return Failure(ValueError); }
    record := record.(exptime := Some(exptime.value));
    // The callee `integer` is looked up before its argument: NameError, whatever the inputs.
    return Failure(NameError("integer"));
  }

  /** create_record as evidently intended, with `int` for `integer`: every entry copied into
      the same-named field, exptime read with `float` and lnrs with `int`. */
  function IntendedRecord(inputs: map<string, string>): (r: Result<ObsRecord>)
    ensures r.Success? <==> (forall i :: 0 <= i < |RecordKeys| ==> RecordKeys[i] in inputs) &&
                            "exptime" in inputs && ParseTenths(inputs["exptime"]).Some? &&
                            "lnrs" in inputs && ParseNat(inputs["lnrs"]).Some?
    ensures r.Failure? ==> r.error == ValueError || (r.error.KeyError? && r.error.key !in inputs)
    // The exception raised is the first one met in reading order.
    ensures FirstMissing(CopiedKeys, inputs).Some? ==> r == Failure(KeyError(FirstMissing(CopiedKeys, inputs).value))
    ensures r == Failure(ValueError) <==>
              FirstMissing(CopiedKeys, inputs).None? && "exptime" in inputs &&
              (ParseTenths(inputs["exptime"]).None? || ("lnrs" in inputs && ParseNat(inputs["lnrs"]).None?))
    ensures r == Failure(KeyError("lnrs")) <==>
              FirstMissing(CopiedKeys, inputs).None? && "exptime" in inputs &&
              ParseTenths(inputs["exptime"]).Some? && "lnrs" !in inputs
    ensures r == Failure(KeyError("rdmode")) <==>
              FirstMissing(CopiedKeys, inputs).None? && "exptime" in inputs &&
              ParseTenths(inputs["exptime"]).Some? && "lnrs" in inputs && ParseNat(inputs["lnrs"]).Some? &&
              "rdmode" !in inputs
    // A record is what the constructor makes of the same-named answers, with exptime read by
    // `float()` and lnrs by `int()`.
    ensures r.Success? ==>
              "targetname" in inputs && "rootname" in inputs && "band" in inputs && "grism" in inputs &&
              "datatype" in inputs && "applyto" in inputs && "filerange" in inputs &&
              "exptime" in inputs && "lnrs" in inputs && "rdmode" in inputs &&
              r == NewRecord(Some(inputs["targetname"]), Some(inputs["rootname"]), Some(inputs["band"]),
                             Some(inputs["grism"]), Some(inputs["datatype"]), Some(inputs["applyto"]),
                             Some(inputs["filerange"]), Some(Str(inputs["exptime"])),
                             Some(Str(inputs["lnrs"])), Some(inputs["rdmode"]))
  {
    var m := FirstMissing(CopiedKeys, inputs);
    RecordKeysPresent(inputs);
    if m.Some? then Failure(KeyError(m.value))
    else
      CopiedKeysPresent(inputs);
      if ParseTenths(inputs["exptime"]).None? then Failure(ValueError)
      else if "lnrs" !in inputs then Failure(KeyError("lnrs"))
      else if ParseNat(inputs["lnrs"]).None? then Failure(ValueError)
      else if "rdmode" !in inputs then Failure(KeyError("rdmode"))
      else
        Success(ObsRecord(Some(inputs["targetname"]), Some(inputs["rootname"]), Some(inputs["band"]),
                          Some(inputs["grism"]), Some(inputs["datatype"]), Some(inputs["applyto"]),
                          Some(inputs["filerange"]), Some(ParseTenths(inputs["exptime"]).value),
                          Some(ParseNat(inputs["lnrs"]).value), Some(inputs["rdmode"])))
  }

  /** Answers that are single words give a record the table stores and reads back unchanged,
      and its printed columns are the answers, with exptime and lnrs in their printed forms. */
  lemma IntendedRecordStores(inputs: map<string, string>)
    requires IntendedRecord(inputs).Success?
    requires forall k :: k in inputs && k != "exptime" && k != "lnrs" ==> inputs[k] != [] && NoSpace(inputs[k])
    ensures Serialisable(IntendedRecord(inputs).value)
    ensures ReadRecord(PrintRecord(IntendedRecord(inputs).value).value) == IntendedRecord(inputs)
  {
    var r := IntendedRecord(inputs).value;
    RoundTrip(r, "");
    assert PrintRecord(r).value + "" == PrintRecord(r).value;
  }

  /** On the same answers: whenever the intended function returns a record, create_record as
      written reaches its lnrs line; before that line the two raise the same exception. */
  lemma IntendedRecordPassesWrittenChecks(inputs: map<string, string>)
    ensures IntendedRecord(inputs).Success? ==> CreateRecordError(inputs) == NameError("integer")
    ensures CreateRecordError(inputs) != NameError("integer") ==>
              IntendedRecord(inputs) == Failure(CreateRecordError(inputs))
  {
  }
}
