/** The configuration reader of the 2012 revision
    (kryten/read_configuration.c, with the types of kryten/pv_client.h): a
    rule is a plain lower/upper pair, at most 16 of them, the command is one
    word, and the index is read with strtol directly.

    The index parse tests errno without clearing it first. The reader is
    modelled both as written, threading errno from line to line, and with
    errno cleared before the index is read; the clean version is the one the
    rest of the model uses. */
module LegacyConfig {
  import opened Optional
  import opened CStrings
  import opened Numbers
  import opened Variants
  import opened ConfigLexer
  import Config
  import Rules

  const LEGACY_NUMBER_OF_RANGES: nat := 16

  /** Varient_Range: the value must lie between lower and upper. */
  datatype Range = Range(lower: Value, upper: Value)

  /** One configuration entry of the older reader. */
  datatype LegacyEntry = LegacyEntry(pvName: string, index: int, ranges: seq<Range>, command: string)

  // ---------------------------------------------------------------- values

  /** The conversion consumed the whole item without a range error. */
  predicate ReadsItem(c: Conversion, item: string)
  {
    !c.rangeError && c.end == |item|
  }

  /** scan_long: a base-10, or failing that base-16, strtol that consumes the
      whole item without a range error. An empty item is consumed whole by a
      conversion that reads nothing, so it is the integer 0.
      (kryten/read_configuration.c:123-145) */
  function ScanLong(item: string): (r: Scanned<int>)
    ensures r.ok <==> ReadsItem(StrToL(item, 10), item) || ReadsItem(StrToL(item, 16), item)
    ensures r.ok && ReadsItem(StrToL(item, 10), item) ==> r.value == StrToL(item, 10).value
    ensures !ReadsItem(StrToL(item, 10), item) ==> r.value == StrToL(item, 16).value
    ensures r.ok ==> IsLong(r.value)
    ensures |item| == 0 ==> r == Scanned(0, true)
  {
    var d := StrToL(item, 10);
    if !d.rangeError && d.end == |item| then Scanned(d.value, true)
    else
      var h := StrToL(item, 16);
      if !h.rangeError && h.end == |item| then Scanned(h.value, true)
      else Scanned(h.value, false)
  }

  /** scan_double: strtod consumes the whole item. Unlike double_value it does
      not exclude integers; scan_value asks scan_long first.
      (kryten/read_configuration.c:108-118) */
  function ScanDouble(item: string): (r: Scanned<Double>)
    ensures r.ok <==> StrToD(item).end == |item|
    ensures r.value == StrToD(item).value
  {
    var d := StrToD(item);
    Scanned(d.value, d.end == |item|)
  }

  /** On an item with no trailing white space, scan_long agrees with the newer
      long_value except on the empty item. */
  lemma ScanLongAgrees(item: string)
    requires |item| > 0 && !IsSpace(item[|item| - 1])
    ensures ScanLong(item).ok == LongValue(item).ok
    ensures ScanLong(item).ok ==> ScanLong(item).value == LongValue(item).value
  {
    assert TrimEnd(item) == |item|;
  }

  /** Classification of an unquoted token by scan_value: Integer, else
      Floating, else a String of at most 40 characters. */
  function LegacyClassify(item: string): (r: Option<Value>)
    ensures r.Some? ==> WellFormed(r.value) && !r.value.VoidValue?
    ensures r.Some? && r.value.IntegerValue? <==> ScanLong(item).ok
    ensures r.Some? && r.value.FloatingValue? <==> !ScanLong(item).ok && ScanDouble(item).ok
    ensures r.None? <==> !ScanLong(item).ok && !ScanDouble(item).ok && |item| > MAX_STRING_SIZE
  {
    var l := ScanLong(item);
    if l.ok then Some(IntegerValue(l.value))
    else
      var d := ScanDouble(item);
      if d.ok then Some(FloatingValue(d.value))
      else if |item| <= MAX_STRING_SIZE then Some(StringValue(item))
      else None
  }

  /** Both revisions classify a non-empty unquoted token alike; only the
      empty token differs, an Integer 0 here and a String "" in the newer
      reader. */
  lemma ClassificationAgrees(item: string)
    requires forall k :: 0 <= k < |item| ==> !IsSpace(item[k])
    ensures |item| > 0 ==> LegacyClassify(item) == Config.ClassifyToken(item)
    ensures |item| == 0 ==> LegacyClassify(item) == Some(IntegerValue(0))
    ensures |item| == 0 ==> Config.ClassifyToken(item) == Some(StringValue(""))
  {
    if |item| > 0 {
      ScanLongAgrees(item);
      assert TrimEnd(item) == |item|;
    } else {
      assert TrimEnd(item) == 0;
    }
  }

  /** A scanned value, and whether the scan went through scan_long and
      scan_double, which under the exact-rational model of strtod leave
      errno clear (a literal beyond a double's range would set ERANGE). */
  datatype ValueScan = ValueScan(result: Option<Config.Parsed<Value>>, clearsErrno: bool)

  /** scan_value: as the newer parse_value, with scan_long and scan_double
      as the recognisers. (kryten/read_configuration.c:150-253) */
  function ScanValue(s: string, pos: nat): (r: ValueScan)
    requires pos <= |s|
    ensures SkipSpace(s, pos) == |s| ==> r.result.None?
    ensures r.result.Some? ==> WellFormed(r.result.value.value) && !r.result.value.value.VoidValue?
    ensures r.result.Some? ==> r.result.value.end == TokenEnd(s, SkipSpace(s, pos))
    ensures r.result.Some? ==> pos <= r.result.value.end <= |s|
    ensures r.clearsErrno <==> SkipSpace(s, pos) < |s| && !Quoted(Item(s, SkipSpace(s, pos)))
  {
    var start := SkipSpace(s, pos);
    if start == |s| then ValueScan(None, false)
    else
      var item := Item(s, start);
      var end := TokenEnd(s, start);
      if Quoted(item) then
        match QuotedPayload(item)
        case None => ValueScan(None, false)
        case Some(text) => ValueScan(Some(Config.Parsed(StringValue(text), end)), false)
      else
        match LegacyClassify(item)
        case None => ValueScan(None, true)
        case Some(v) => ValueScan(Some(Config.Parsed(v, end)), true)
  }

  /** The value read is the token's, as for the newer parse_value, with
      LegacyClassify as the recogniser. */
  lemma ScanValueReadsToken(s: string, pos: nat)
    requires pos <= |s|
    ensures var r := ScanValue(s, pos).result; var start := SkipSpace(s, pos); var item := Item(s, start);
            start < |s| && Quoted(item) ==>
              (r.Some? <==> QuotedPayload(item).Some?) &&
              (r.Some? ==> r.value.value == StringValue(QuotedPayload(item).value))
    ensures var r := ScanValue(s, pos).result; var start := SkipSpace(s, pos); var item := Item(s, start);
            start < |s| && !Quoted(item) ==>
              (r.Some? <==> LegacyClassify(item).Some?) &&
              (r.Some? ==> r.value.value == LegacyClassify(item).value)
  {
  }

  // --------------------------------------------------------------- entries

  /** The result of parsing a line and the state of errno afterwards. */
  datatype LineOutcome = LineOutcome(entry: Option<LegacyEntry>, errno: bool)

  datatype RangesOutcome = RangesOutcome(result: Option<Config.Parsed<seq<Range>>>, errno: bool)

  predicate WellFormedRange(r: Range)
  {
    WellFormed(r.lower) && WellFormed(r.upper) && !r.lower.VoidValue? && !r.upper.VoidValue?
  }

  /** One item: `value` or `value ~ value`; a lone value is its own upper
      bound. The position after it, and errno, are returned. */
  function ParseRange(s: string, pos: nat, errno: bool): (r: RangesOutcome)
    requires pos <= |s|
    ensures r.result.Some? ==> |r.result.value.value| == 1 && WellFormedRange(r.result.value.value[0])
    ensures r.result.Some? ==> pos <= r.result.value.end <= |s|
  {
    var lo := ScanValue(s, pos);
    var e1 := errno && !lo.clearsErrno;
    match lo.result
    case None => RangesOutcome(None, e1)
    case Some(l) => RangeAfterLower(s, l, e1)
  }

  /** The rest of an item after its lower bound l. */
  function RangeAfterLower(s: string, l: Config.Parsed<Value>, errno: bool): (r: RangesOutcome)
    requires l.end <= |s| && WellFormed(l.value) && !l.value.VoidValue?
    ensures r.result.Some? ==> |r.result.value.value| == 1 && WellFormedRange(r.result.value.value[0])
    ensures r.result.Some? ==> l.end <= r.result.value.end <= |s|
  {
    var k := SkipSpace(s, l.end);
    if k == |s| then RangesOutcome(None, errno)
    else if s[k] != '~' then RangesOutcome(Some(Config.Parsed([Range(l.value, l.value)], l.end)), errno)
    else
      var m := SkipSpace(s, k + 1);
      if m == |s| then RangesOutcome(None, errno)
      else
        var hi := ScanValue(s, m);
        var e2 := errno && !hi.clearsErrno;
        match hi.result
        case None => RangesOutcome(None, e2)
        case Some(h) => RangesOutcome(Some(Config.Parsed([Range(l.value, h.value)], h.end)), e2)
  }

  /** An item is read from the value scan_value reads where it starts: a
      lone value, followed by anything but '~', is the range from it to
      itself; after '~' the upper bound is the value read next; the end of
      the line after the first value fails the item.
      (kryten/read_configuration.c:349-384) */
  lemma ParseRangeReads(s: string, pos: nat, errno: bool)
    requires pos <= |s|
    ensures ScanValue(s, pos).result.None? ==> ParseRange(s, pos, errno).result.None?
    ensures var lo := ScanValue(s, pos).result;
            lo.Some? && SkipSpace(s, lo.value.end) == |s| ==> ParseRange(s, pos, errno).result.None?
    ensures var lo := ScanValue(s, pos).result;
            lo.Some? && SkipSpace(s, lo.value.end) < |s| && s[SkipSpace(s, lo.value.end)] != '~' ==>
              ParseRange(s, pos, errno).result == Some(Config.Parsed([Range(lo.value.value, lo.value.value)], lo.value.end))
    ensures var lo := ScanValue(s, pos).result;
            lo.Some? && SkipSpace(s, lo.value.end) < |s| && s[SkipSpace(s, lo.value.end)] == '~' ==>
              var hi := ScanValue(s, SkipSpace(s, SkipSpace(s, lo.value.end) + 1)).result;
              ParseRange(s, pos, errno).result
                == if hi.Some? then Some(Config.Parsed([Range(lo.value.value, hi.value.value)], hi.value.end)) else None
  {
    hide ScanValue, RangeAfterLower;
    var lo := ScanValue(s, pos);
    if lo.result.Some? {
      var l := lo.result.value;
      var k := SkipSpace(s, l.end);
      if k == |s| {
        RangeAfterLowerEnds(s, l, errno && !lo.clearsErrno, k);
      } else if s[k] != '~' {
        RangeAfterLowerLone(s, l, errno && !lo.clearsErrno, k);
      } else {
        RangeAfterLowerPair(s, l, errno && !lo.clearsErrno, k, SkipSpace(s, k + 1));
      }
    }
  }

  lemma RangeAfterLowerEnds(s: string, l: Config.Parsed<Value>, errno: bool, k: nat)
    requires l.end <= |s| && WellFormed(l.value) && !l.value.VoidValue?
    requires k == SkipSpace(s, l.end) && k == |s|
    ensures RangeAfterLower(s, l, errno).result.None?
  {
    hide ScanValue, Item, Quoted, TokenEnd, SkipSpace;
  }

  lemma RangeAfterLowerLone(s: string, l: Config.Parsed<Value>, errno: bool, k: nat)
    requires l.end <= |s| && WellFormed(l.value) && !l.value.VoidValue?
    requires k == SkipSpace(s, l.end) && k < |s| && s[k] != '~'
    ensures RangeAfterLower(s, l, errno).result == Some(Config.Parsed([Range(l.value, l.value)], l.end))
  {
    hide ScanValue, Item, Quoted, TokenEnd, SkipSpace;
  }

  lemma RangeAfterLowerPair(s: string, l: Config.Parsed<Value>, errno: bool, k: nat, m: nat)
    requires l.end <= |s| && WellFormed(l.value) && !l.value.VoidValue?
    requires k == SkipSpace(s, l.end) && k < |s| && s[k] == '~' && m == SkipSpace(s, k + 1)
    ensures var hi := ScanValue(s, m).result;
            RangeAfterLower(s, l, errno).result
              == if hi.Some? then Some(Config.Parsed([Range(l.value, hi.value.value)], hi.value.end)) else None
  {
    hide ScanValue, RangeAfterLower;
    var hi := ScanValue(s, m).result;
    if hi.Some? {
      RangeAfterLowerUpper(s, l, errno, k, m, hi.value);
    } else {
      RangeAfterLowerNoUpper(s, l, errno, k, m);
    }
  }

  lemma RangeAfterLowerUpper(s: string, l: Config.Parsed<Value>, errno: bool, k: nat, m: nat, h: Config.Parsed<Value>)
    requires l.end <= |s| && WellFormed(l.value) && !l.value.VoidValue?
    requires k == SkipSpace(s, l.end) && k < |s| && s[k] == '~' && m == SkipSpace(s, k + 1)
    requires ScanValue(s, m).result == Some(h)
    ensures RangeAfterLower(s, l, errno).result == Some(Config.Parsed([Range(l.value, h.value)], h.end))
  {
    hide ScanValue, Item, Quoted, TokenEnd, SkipSpace;
  }

  lemma RangeAfterLowerNoUpper(s: string, l: Config.Parsed<Value>, errno: bool, k: nat, m: nat)
    requires l.end <= |s| && WellFormed(l.value) && !l.value.VoidValue?
    requires k == SkipSpace(s, l.end) && k < |s| && s[k] == '~' && m == SkipSpace(s, k + 1)
    requires ScanValue(s, m).result.None?
    ensures RangeAfterLower(s, l, errno).result.None?
  {
    hide ScanValue, Item, Quoted, TokenEnd, SkipSpace;
    if m < |s| {
      assert ScanValue(s, m).result.None?;
    }
  }

  /** The item loop: after each item the line must go on, a third value
      ('~' again) is an error, '|' asks for another item and a '|' after the
      16th is an error. (kryten/read_configuration.c:347-430) */
  function ParseRanges(s: string, pos: nat, acc: seq<Range>, errno: bool): (r: RangesOutcome)
    requires pos <= |s| && |acc| < LEGACY_NUMBER_OF_RANGES
    requires forall k :: 0 <= k < |acc| ==> WellFormedRange(acc[k])
    ensures r.result.Some? ==> |acc| < |r.result.value.value| <= LEGACY_NUMBER_OF_RANGES
    ensures r.result.Some? ==> forall k :: 0 <= k < |r.result.value.value| ==> WellFormedRange(r.result.value.value[k])
    ensures r.result.Some? ==> pos <= r.result.value.end < |s| && !IsSpace(s[r.result.value.end])
    decreases |s| - pos
  {
    var i := SkipSpace(s, pos);
    if i == |s| then RangesOutcome(None, errno)
    else
      var item := ParseRange(s, i, errno);
      match item.result
      case None => item
      case Some(one) =>
        var ranges := acc + one.value;
        AppendRangeWellFormed(acc, one.value);
        var k := SkipSpace(s, one.end);
        if k == |s| || s[k] == '~' then RangesOutcome(None, item.errno)
        else if s[k] != '|' then RangesOutcome(Some(Config.Parsed(ranges, k)), item.errno)
        else if |ranges| >= LEGACY_NUMBER_OF_RANGES then RangesOutcome(None, item.errno)
        else ParseRanges(s, k + 1, ranges, item.errno)
  }

  /** The ranges read so far stay in front, and the next one is the item
      read after the white space at pos. */
  lemma {:induction false} ParseRangesExtends(s: string, pos: nat, acc: seq<Range>, errno: bool)
    requires pos <= |s| && |acc| < LEGACY_NUMBER_OF_RANGES
    requires forall k :: 0 <= k < |acc| ==> WellFormedRange(acc[k])
    ensures var r := ParseRanges(s, pos, acc, errno).result;
            r.Some? ==> r.value.value[..|acc|] == acc
    ensures var r := ParseRanges(s, pos, acc, errno).result;
            r.Some? ==> SkipSpace(s, pos) < |s| && ParseRange(s, SkipSpace(s, pos), errno).result.Some? &&
                        r.value.value[|acc|] == ParseRange(s, SkipSpace(s, pos), errno).result.value.value[0]
    decreases |s| - pos
  {
    hide ParseRange, SkipSpace, ScanValue;
    var i := SkipSpace(s, pos);
    if i < |s| {
      var item := ParseRange(s, i, errno);
      if item.result.Some? {
        var one := item.result.value;
        var ranges := acc + one.value;
        AppendRangeWellFormed(acc, one.value);
        var k := SkipSpace(s, one.end);
        if k < |s| && s[k] == '|' && |ranges| < LEGACY_NUMBER_OF_RANGES {
          ParseRangesExtends(s, k + 1, ranges, item.errno);
          var r := ParseRanges(s, k + 1, ranges, item.errno).result;
          if r.Some? {
            assert r.value.value[..|acc|] == r.value.value[..|ranges|][..|acc|];
            assert r.value.value[|acc|] == r.value.value[..|ranges|][|acc|];
          }
        }
      }
    }
  }

  /** An item followed by anything but '~', '|' or the end of the line ends
      the list there. */
  lemma ParseRangesEnd(s: string, pos: nat, acc: seq<Range>, errno: bool, i: nat, one: Config.Parsed<seq<Range>>, k: nat)
    requires pos <= |s| && |acc| < LEGACY_NUMBER_OF_RANGES
    requires forall j :: 0 <= j < |acc| ==> WellFormedRange(acc[j])
    requires i == SkipSpace(s, pos) && i < |s| && ParseRange(s, i, errno).result == Some(one)
    requires k == SkipSpace(s, one.end) && k < |s| && s[k] != '~' && s[k] != '|'
    ensures ParseRanges(s, pos, acc, errno).result == Some(Config.Parsed(acc + one.value, k))
  {
  }

  /** An item followed by '|' goes on with the next item, unless it was the
      sixteenth. */
  lemma ParseRangesBar(s: string, pos: nat, acc: seq<Range>, errno: bool, i: nat, one: Config.Parsed<seq<Range>>, k: nat, next: nat)
    requires pos <= |s| && |acc| + 1 < LEGACY_NUMBER_OF_RANGES
    requires forall j :: 0 <= j < |acc| ==> WellFormedRange(acc[j])
    requires i == SkipSpace(s, pos) && i < |s| && ParseRange(s, i, errno).result == Some(one)
    requires k == SkipSpace(s, one.end) && k < |s| && s[k] == '|' && next == k + 1
    ensures |one.value| == 1 && forall j :: 0 <= j < |acc + one.value| ==> WellFormedRange((acc + one.value)[j])
    ensures ParseRanges(s, pos, acc, errno).result == ParseRanges(s, next, acc + one.value, ParseRange(s, i, errno).errno).result
  {
    hide ParseRange;
    AppendRangeWellFormed(acc, one.value);
  }

  /** A sixteenth item followed by '|' fails the line. */
  lemma ParseRangesTooMany(s: string, pos: nat, acc: seq<Range>, errno: bool, i: nat, one: Config.Parsed<seq<Range>>, k: nat)
    requires pos <= |s| && |acc| + 1 == LEGACY_NUMBER_OF_RANGES
    requires forall j :: 0 <= j < |acc| ==> WellFormedRange(acc[j])
    requires i == SkipSpace(s, pos) && i < |s| && ParseRange(s, i, errno).result == Some(one)
    requires k == SkipSpace(s, one.end) && k < |s| && s[k] == '|'
    ensures ParseRanges(s, pos, acc, errno).result.None?
  {
  }

  lemma AppendRangeWellFormed(acc: seq<Range>, one: seq<Range>)
    requires forall k :: 0 <= k < |acc| ==> WellFormedRange(acc[k])
    requires |one| == 1 && WellFormedRange(one[0])
    ensures forall k :: 0 <= k < |acc + one| ==> WellFormedRange((acc + one)[k])
  {
  }

  /** The line starts with an acceptable PV name followed by '['. */
  predicate HasIndex(s: string)
  {
    var i := SkipSpace(s, 0);
    i < |s| && (IsAlnum(s[i]) || s[i] == '$') &&
    var j := SkipSpace(s, Config.WordEnd(s, i));
    j < |s| && s[j] == '['
  }

  /** The strtol that reads the index, applied after the '[' and white space. */
  function IndexConversion(s: string): (c: Conversion)
    requires HasIndex(s)
  {
    StrToL(s[SkipSpace(s, IndexBracket(s) + 1)..], 10)
  }

  /** What every entry the older parse_line accepts looks like. */
  predicate LegacyWellFormed(e: LegacyEntry)
  {
    && |e.pvName| > 0 && (IsAlnum(e.pvName[0]) || e.pvName[0] == '$')
    && e.index >= 1 && IsInt(e.index)
    && 1 <= |e.ranges| <= LEGACY_NUMBER_OF_RANGES
    && (forall k :: 0 <= k < |e.ranges| ==> WellFormedRange(e.ranges[k]))
    && |e.command| > 0
    && (forall k :: 0 <= k < |e.command| ==> !IsSpace(e.command[k]))
  }

  /** parse_line of the older reader, given errno on entry: a PV name, an
      optional `[index]` read by strtol and rejected when errno is then
      non-zero, one to sixteen items and a one-word command; anything after
      the command is ignored. (kryten/read_configuration.c:259-451) */
  function ParseLineWithErrno(s: string, errno: bool): (r: LineOutcome)
    ensures r.entry.Some? ==> LegacyWellFormed(r.entry.value)
  {
    var i := SkipSpace(s, 0);
    if i == |s| then LineOutcome(None, errno)
    else
      var e := Config.WordEnd(s, i);
      var name := s[i..e];
      if !(IsAlnum(name[0]) || name[0] == '$') then LineOutcome(None, errno)
      else
        var j := SkipSpace(s, e);
        if j == |s| then LineOutcome(None, errno)
        else if s[j] == '[' then IndexThenRest(s, j, name, errno)
        else RangesAndCommand(s, j, name, 1, errno)
  }

  /** The '[' of a line that has an index. */
  function IndexBracket(s: string): (j: nat)
    requires HasIndex(s)
    ensures j < |s| && s[j] == '['
  {
    SkipSpace(s, Config.WordEnd(s, SkipSpace(s, 0)))
  }

  /** A line with an index goes straight to the index parse. */
  lemma IndexedLineUnfolds(s: string, errno: bool)
    requires HasIndex(s)
    ensures var i := SkipSpace(s, 0);
            var name := s[i..Config.WordEnd(s, i)];
            |name| > 0 && (IsAlnum(name[0]) || name[0] == '$') &&
            ParseLineWithErrno(s, errno) == IndexThenRest(s, IndexBracket(s), name, errno)
  {
    var i := SkipSpace(s, 0);
    var e := Config.WordEnd(s, i);
    assert s[i..e][0] == s[i];
  }

  /** A line with an index fails when errno is set on entry, and an index
      out of the range of a long fails the line and leaves errno set. */
  lemma IndexedLineUsesErrno(s: string, errno: bool)
    requires HasIndex(s)
    ensures errno ==> ParseLineWithErrno(s, errno).entry.None?
    ensures IndexConversion(s).rangeError ==> ParseLineWithErrno(s, errno) == LineOutcome(None, true)
  {
    IndexedLineUnfolds(s, errno);
  }

  /** The bracketed index: after '[' and white space, strtol base 10; the
      line fails when errno is then set, when the index is below 1 or when
      ']' does not follow. (kryten/read_configuration.c:307-341) */
  function IndexThenRest(s: string, j: nat, name: string, errno: bool): (r: LineOutcome)
    requires j < |s| && s[j] == '['
    requires |name| > 0 && (IsAlnum(name[0]) || name[0] == '$')
    ensures r.entry.Some? ==> LegacyWellFormed(r.entry.value)
    ensures errno ==> r.entry.None?
    ensures SkipSpace(s, j + 1) < |s| && StrToL(s[SkipSpace(s, j + 1)..], 10).rangeError ==> r == LineOutcome(None, true)
  {
    var k := SkipSpace(s, j + 1);
    if k == |s| then LineOutcome(None, errno)
    else
      var c := StrToL(s[k..], 10);
      var e1 := errno || c.rangeError;
      var index := ToInt(c.value);
      if e1 || index < 1 then LineOutcome(None, e1)
      else
        var m := SkipSpace(s, k + c.end);
        if m == |s| || s[m] != ']' then LineOutcome(None, e1)
        else RangesAndCommand(s, m + 1, name, index, e1)
  }

  /** The items and the one-word command after them. */
  function RangesAndCommand(s: string, pos: nat, name: string, index: int, errno: bool): (r: LineOutcome)
    requires pos <= |s|
    requires |name| > 0 && (IsAlnum(name[0]) || name[0] == '$')
    requires index >= 1 && IsInt(index)
    ensures r.entry.Some? ==> LegacyWellFormed(r.entry.value)
    ensures r.entry.Some? ==> r.entry.value.pvName == name && r.entry.value.index == index
  {
    var rs := ParseRanges(s, pos, [], errno);
    match rs.result
    case None => LineOutcome(None, rs.errno)
    case Some(p) =>
      var c := s[p.end..Config.WordEnd(s, p.end)];
      LineOutcome(Some(LegacyEntry(name, index, p.value, c)), rs.errno)
  }

  /** The line is accepted exactly when its items are, with the ranges read
      and the word after them as the command. */
  lemma RangesAndCommandReads(s: string, pos: nat, name: string, index: int, errno: bool)
    requires pos <= |s|
    requires |name| > 0 && (IsAlnum(name[0]) || name[0] == '$')
    requires index >= 1 && IsInt(index)
    ensures var r := RangesAndCommand(s, pos, name, index, errno).entry;
            r.Some? <==> ParseRanges(s, pos, [], errno).result.Some?
    ensures var r := RangesAndCommand(s, pos, name, index, errno).entry;
            var p := ParseRanges(s, pos, [], errno).result;
            p.Some? ==> r == Some(LegacyEntry(name, index, p.value.value, s[p.value.end..Config.WordEnd(s, p.value.end)]))
  {
    hide ParseRanges;
  }

  /** parse_line with errno clear on entry, as it would be if the index
      parse reset errno before calling strtol. */
  function ParseLine(s: string): (r: Option<LegacyEntry>)
    ensures r.Some? ==> LegacyWellFormed(r.value)
    ensures HasIndex(s) && IndexConversion(s).rangeError ==> r.None?
  {
    if HasIndex(s) then IndexedLineUsesErrno(s, false); ParseLineWithErrno(s, false).entry
    else ParseLineWithErrno(s, false).entry
  }

  // ------------------------------------------------------------ the file

  /** What Scan_Configuration_File stores for an entry: the name as strncpy
      leaves it in the 80-byte field and at most 120 command characters. */
  function Stored(e: LegacyEntry): (r: LegacyEntry)
    ensures |r.pvName| <= Rules.MAXIMUM_PVNAME_SIZE && |r.command| <= Rules.MATCH_COMMAND_LENGTH
    ensures r.pvName <= e.pvName && r.command <= e.command
    ensures r.index == e.index && r.ranges == e.ranges
  {
    LegacyEntry(Truncate(e.pvName, Rules.MAXIMUM_PVNAME_SIZE), e.index, e.ranges,
                Truncate(e.command, Rules.MATCH_COMMAND_LENGTH))
  }

  /** The reading loop with errno reset before every index parse: every
      line that parses becomes a client, in file order. */
  function ScanLines(lines: seq<string>): seq<LegacyEntry>
  {
    if |lines| == 0 then []
    else
      var line := lines[0];
      var here := if Ignored(line) then []
                  else match ParseLine(line[SkipSpace(line, 0)..])
                       case Some(e) => [Stored(e)]
                       case None => [];
      here + ScanLines(lines[1..])
  }

  /** The reading loop as written: errno carries over from line to line. */
  function ScanLinesAsWritten(lines: seq<string>, errno: bool): seq<LegacyEntry>
  {
    if |lines| == 0 then []
    else
      var line := lines[0];
      if Ignored(line) then ScanLinesAsWritten(lines[1..], errno)
      else
        var o := ParseLineWithErrno(line[SkipSpace(line, 0)..], errno);
        var here := match o.entry
                    case Some(e) => [Stored(e)]
                    case None => [];
        here + ScanLinesAsWritten(lines[1..], o.errno)
  }

  /** Scan_Configuration_File: None without a client list or when the file
      cannot be opened, else the clients in file order, read with the
      corrected loop. (kryten/read_configuration.c:456-557) */
  function ScanConfigurationFile(haveList: bool, file: Option<string>): (r: Option<seq<LegacyEntry>>)
    ensures r.None? <==> !haveList || file.None?
    ensures r.Some? ==> forall k :: 0 <= k < |r.value| ==> r.value[k].index >= 1 && 1 <= |r.value[k].ranges| <= LEGACY_NUMBER_OF_RANGES
  {
    if !haveList then None
    else
      match file
      case None => None
      case Some(text) => ScanLinesWellFormed(Lines(text)); Some(ScanLines(Lines(text)))
  }

  /** Every stored client has an index of at least 1 and one to sixteen
      ranges. */
  lemma {:induction false} ScanLinesWellFormed(lines: seq<string>)
    ensures forall k :: 0 <= k < |ScanLines(lines)| ==>
              ScanLines(lines)[k].index >= 1 && 1 <= |ScanLines(lines)[k].ranges| <= LEGACY_NUMBER_OF_RANGES
  {
    hide ParseLine, Ignored;
    if |lines| > 0 {
      ScanLinesWellFormed(lines[1..]);
    }
  }

  /** A line whose index is out of range is rejected and leaves errno set
      for the rest of the file. */
  lemma RangeErrorCarriesOver(first: string, rest: seq<string>)
    requires !Ignored(first)
    requires HasIndex(first[SkipSpace(first, 0)..])
    requires IndexConversion(first[SkipSpace(first, 0)..]).rangeError
    ensures ScanLinesAsWritten([first] + rest, false) == ScanLinesAsWritten(rest, true)
  {
    IndexedLineUsesErrno(first[SkipSpace(first, 0)..], false);
    assert ([first] + rest)[1..] == rest;
  }

  /** With errno set, a line with an index is rejected and errno stays set. */
  lemma StaleErrnoRejects(second: string, rest: seq<string>)
    requires !Ignored(second)
    requires HasIndex(second[SkipSpace(second, 0)..])
    ensures ScanLinesAsWritten([second] + rest, true)
            == ScanLinesAsWritten(rest, ParseLineWithErrno(second[SkipSpace(second, 0)..], true).errno)
  {
    IndexedLineUsesErrno(second[SkipSpace(second, 0)..], true);
    assert ([second] + rest)[1..] == rest;
  }

  /** The corrected loop drops a line that does not parse ... */
  lemma ScanLinesSkips(line: string, rest: seq<string>)
    requires !Ignored(line) && ParseLine(line[SkipSpace(line, 0)..]).None?
    ensures ScanLines([line] + rest) == ScanLines(rest)
  {
    assert ([line] + rest)[1..] == rest;
  }

  /** ... and stores one that does. */
  lemma ScanLinesKeeps(line: string, rest: seq<string>)
    requires !Ignored(line) && ParseLine(line[SkipSpace(line, 0)..]).Some?
    ensures ScanLines([line] + rest) == [Stored(ParseLine(line[SkipSpace(line, 0)..]).value)] + ScanLines(rest)
  {
    assert ([line] + rest)[1..] == rest;
  }

  /** The stale-errno defect: after a line whose index is out of the range of
      a long, the next line that has an index is rejected by the code as
      written, whatever it says, while the reader that clears errno accepts
      it. */
  lemma StaleErrnoRejectsNextIndex(first: string, second: string)
    requires !Ignored(first) && !Ignored(second)
    requires HasIndex(first[SkipSpace(first, 0)..])
    requires IndexConversion(first[SkipSpace(first, 0)..]).rangeError
    requires HasIndex(second[SkipSpace(second, 0)..])
    requires ParseLine(second[SkipSpace(second, 0)..]).Some?
    ensures ScanLinesAsWritten([first, second], false) == []
    ensures ScanLines([first, second]) == [Stored(ParseLine(second[SkipSpace(second, 0)..]).value)]
  {
    AsWrittenRejectsBoth(first, second);
    CorrectedKeepsSecond(first, second);
  }

  lemma AsWrittenRejectsBoth(first: string, second: string)
    requires !Ignored(first) && !Ignored(second)
    requires HasIndex(first[SkipSpace(first, 0)..])
    requires IndexConversion(first[SkipSpace(first, 0)..]).rangeError
    requires HasIndex(second[SkipSpace(second, 0)..])
    ensures ScanLinesAsWritten([first, second], false) == []
  {
    RangeErrorCarriesOver(first, [second]);
    StaleErrnoRejects(second, []);
    assert [first] + [second] == [first, second];
    assert [second] + [] == [second];
  }

  lemma CorrectedKeepsSecond(first: string, second: string)
    requires !Ignored(first) && !Ignored(second)
    requires HasIndex(first[SkipSpace(first, 0)..])
    requires IndexConversion(first[SkipSpace(first, 0)..]).rangeError
    requires ParseLine(second[SkipSpace(second, 0)..]).Some?
    ensures ScanLines([first, second]) == [Stored(ParseLine(second[SkipSpace(second, 0)..]).value)]
  {
    ScanLinesSkips(first, [second]);
    ScanLinesKeeps(second, []);
    assert [first] + [second] == [first, second];
    assert [second] + [] == [second];
  }
}
