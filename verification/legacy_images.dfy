/** The text of a configuration line of the 2012 revision, written from an
    entry, and the proof that the older parse_line reads that text back as
    the entry: the acceptance half of its contract.

    Values are written with their decimal images; a range whose bounds
    agree is written as the lone value, any other as `lo ~ hi`. */
module LegacyImages {
  import opened Optional
  import opened CStrings
  import opened Numbers
  import opened Variants
  import opened ConfigLexer
  import opened LegacyConfig
  import Config
  import ConfigImages

  // ---------------------------------------------------------------- values

  /** scan_value reads a bare token as the value the newer reader classifies
      it as. */
  lemma ScansToken(s: string, p: nat, q: nat, a: string, v: Value, e: nat)
    requires ConfigImages.BareToken(a) && Config.ClassifyToken(a) == Some(v) && p <= q && e == q + |a|
    requires ConfigImages.At(s, q, a) && ConfigImages.Blank(s, p, q)
    requires e == |s| || EndsBareToken(s[e])
    ensures ScanValue(s, p).result == Some(Config.Parsed(v, e))
  {
    ConfigImages.TokenAt(s, p, q, a, e);
    ScanValueReadsToken(s, p);
    ClassificationAgrees(a);
  }

  /** Once the lower bound is read, the item is what follows it. */
  lemma RangeOfLower(s: string, p: nat, errno: bool, l: Config.Parsed<Value>)
    requires p <= |s| && ScanValue(s, p).result == Some(l)
    ensures l.end <= |s| && WellFormed(l.value) && !l.value.VoidValue?
    ensures ParseRange(s, p, errno) == RangeAfterLower(s, l, errno && !ScanValue(s, p).clearsErrno)
  {
    hide ScanValue, RangeAfterLower;
  }

  // ---------------------------------------------------------------- ranges

  /** The ranges written here: bounds that are longs. */
  predicate IntegerRange(r: Range)
  {
    r.lower.IntegerValue? && IsLong(r.lower.i) && r.upper.IntegerValue? && IsLong(r.upper.i)
  }

  /** A range as a line writes it: the lone value when the bounds agree,
      else `lo ~ hi`. */
  function RangeImage(r: Range): (t: string)
    requires IntegerRange(r)
  {
    if r.lower == r.upper then DecimalImage(r.lower.i)
    else DecimalImage(r.lower.i) + " ~ " + DecimalImage(r.upper.i)
  }

  /** A range list written with " | " between the items. */
  function RangesImage(rs: seq<Range>): (t: string)
    requires 0 < |rs| && forall k :: 0 <= k < |rs| ==> IntegerRange(rs[k])
    decreases |rs|
  {
    if |rs| == 1 then RangeImage(rs[0]) else RangeImage(rs[0]) + " | " + RangesImage(rs[1..])
  }

  /** A lone value, followed by anything but '~', is the range from the
      value to itself. */
  lemma ReadsLoneRange(s: string, q: nat, a: string, v: Value, e: nat, k: nat, errno: bool)
    requires ConfigImages.BareToken(a) && Config.ClassifyToken(a) == Some(v) && e == q + |a|
    requires ConfigImages.At(s, q, a) && e < |s| && EndsBareToken(s[e])
    requires k == SkipSpace(s, e) && k < |s| && s[k] != '~'
    ensures ParseRange(s, q, errno).result == Some(Config.Parsed([Range(v, v)], e))
  {
    ScansToken(s, q, q, a, v, e);
    RangeOfLower(s, q, errno, Config.Parsed(v, e));
    RangeAfterLowerLone(s, Config.Parsed(v, e), errno && !ScanValue(s, q).clearsErrno, k);
  }

  /** `a ~ b` is the range between their values. */
  lemma ReadsPairRange(s: string, q: nat, a: string, b: string, lo: Value, hi: Value,
                       e1: nat, k: nat, u: nat, w: nat, e2: nat, errno: bool)
    requires ConfigImages.BareToken(a) && Config.ClassifyToken(a) == Some(lo)
    requires ConfigImages.BareToken(b) && Config.ClassifyToken(b) == Some(hi)
    requires e1 == q + |a| && k == e1 + 1 && u == e1 + 2 && w == e1 + 3 && e2 == w + |b|
    requires ConfigImages.At(s, q, a + " ~ " + b)
    requires e2 == |s| || EndsBareToken(s[e2])
    ensures ParseRange(s, q, errno).result == Some(Config.Parsed([Range(lo, hi)], e2))
  {
    PairText(s, q, a, b, e1, k, u, w, e2);
    ScansToken(s, q, q, a, lo, e1);
    ScansToken(s, w, w, b, hi, e2);
    RangeOfLower(s, q, errno, Config.Parsed(lo, e1));
    RangeAfterLowerUpper(s, Config.Parsed(lo, e1), errno && !ScanValue(s, q).clearsErrno, k, w, Config.Parsed(hi, e2));
  }

  /** Where the two tokens of `a ~ b` and the '~' between them sit. */
  lemma PairText(s: string, q: nat, a: string, b: string, e1: nat, k: nat, u: nat, w: nat, e2: nat)
    requires ConfigImages.BareToken(a) && ConfigImages.BareToken(b)
    requires e1 == q + |a| && k == e1 + 1 && u == e1 + 2 && w == e1 + 3 && e2 == w + |b|
    requires ConfigImages.At(s, q, a + " ~ " + b)
    ensures ConfigImages.At(s, q, a) && ConfigImages.At(s, w, b)
    ensures ConfigImages.Blank(s, q, q) && ConfigImages.Blank(s, w, w)
    ensures e1 < |s| && EndsBareToken(s[e1]) && SkipSpace(s, e1) == k && k < |s| && s[k] == '~'
    ensures SkipSpace(s, k + 1) == w
  {
    ConfigImages.Around(s, q, a, " ~ ", b, e1);
    ConfigImages.AtChar(s, w, b, 0);
    ConfigImages.SeparatorGlue(s, e1, u, w);
    ConfigImages.SkipSpaceTo(s, u, w);
  }

  /** A written range, followed by white space that leads to anything but
      '~', is read back as itself. */
  lemma ReadsRange(s: string, q: nat, r: Range, e: nat, errno: bool)
    requires IntegerRange(r) && e == q + |RangeImage(r)| && ConfigImages.At(s, q, RangeImage(r))
    requires e < |s| && IsSpace(s[e]) && SkipSpace(s, e) < |s| && s[SkipSpace(s, e)] != '~'
    ensures ParseRange(s, q, errno).result == Some(Config.Parsed([r], e))
  {
    var a := DecimalImage(r.lower.i);
    ConfigImages.IntegerToken(r.lower.i);
    if r.lower == r.upper {
      ReadsLoneRange(s, q, a, r.lower, e, SkipSpace(s, e), errno);
    } else {
      var e1 := q + |a|;
      ConfigImages.IntegerToken(r.upper.i);
      ReadsPairRange(s, q, a, DecimalImage(r.upper.i), r.lower, r.upper, e1, e1 + 1, e1 + 2, e1 + 3, e, errno);
    }
  }

  /** What a written range starts with: never white space, an index
      bracket, a '|' or a '~'. */
  lemma RangeImageStart(r: Range)
    requires IntegerRange(r)
    ensures |RangeImage(r)| > 0
    ensures var c := RangeImage(r)[0]; !IsSpace(c) && c != '[' && c != '|' && c != '~'
  {
    var d := DecimalImage(r.lower.i);
    if r.lower.i >= 0 {
      assert IsDigit(NatImage(r.lower.i)[0]);
    }
    if r.lower != r.upper {
      assert RangeImage(r) == d + (" ~ " + DecimalImage(r.upper.i));
    }
  }

  lemma RangesImageStart(rs: seq<Range>)
    requires 0 < |rs| && forall k :: 0 <= k < |rs| ==> IntegerRange(rs[k])
    ensures |RangesImage(rs)| > 0
    ensures var c := RangesImage(rs)[0]; !IsSpace(c) && c != '[' && c != '|' && c != '~'
  {
    RangeImageStart(rs[0]);
    if |rs| > 1 {
      assert RangesImage(rs) == RangeImage(rs[0]) + (" | " + RangesImage(rs[1..]));
    }
  }

  /** A written range after white space starts the next item. */
  lemma RangeStart(s: string, p: nat, q: nat, r: Range)
    requires IntegerRange(r) && p <= q && ConfigImages.At(s, q, RangeImage(r)) && ConfigImages.Blank(s, p, q)
    ensures q < |s| && SkipSpace(s, p) == q
  {
    RangeImageStart(r);
    ConfigImages.AtChar(s, q, RangeImage(r), 0);
    ConfigImages.SkipSpaceTo(s, p, q);
  }

  // ----------------------------------------------------------- range lists

  /** The last range of a list, followed by what ends the list. */
  lemma ReadsLastRange(s: string, p: nat, q: nat, acc: seq<Range>, r: Range, e: nat, errno: bool)
    requires IntegerRange(r) && |acc| < LEGACY_NUMBER_OF_RANGES
    requires forall k :: 0 <= k < |acc| ==> WellFormedRange(acc[k])
    requires p <= q && e == q + |RangeImage(r)|
    requires ConfigImages.At(s, q, RangeImage(r)) && ConfigImages.Blank(s, p, q)
    requires e < |s| && IsSpace(s[e]) && SkipSpace(s, e) < |s|
    requires s[SkipSpace(s, e)] != '~' && s[SkipSpace(s, e)] != '|'
    ensures ParseRanges(s, p, acc, errno).result == Some(Config.Parsed(acc + [r], SkipSpace(s, e)))
  {
    RangeStart(s, p, q, r);
    ReadsRange(s, q, r, e, errno);
    ParseRangesEnd(s, p, acc, errno, q, Config.Parsed([r], e), SkipSpace(s, e));
  }

  /** A range followed by ` | `: the list goes on after the '|'. */
  lemma ReadsRangeThenBar(s: string, p: nat, q: nat, acc: seq<Range>, r: Range, e1: nat, next: nat, errno: bool)
    requires IntegerRange(r) && |acc| + 1 < LEGACY_NUMBER_OF_RANGES
    requires forall k :: 0 <= k < |acc| ==> WellFormedRange(acc[k])
    requires p <= q && e1 == q + |RangeImage(r)|
    requires ConfigImages.At(s, q, RangeImage(r)) && ConfigImages.Blank(s, p, q)
    requires next == e1 + 2 && e1 + 1 < |s| && s[e1] == ' ' && s[e1 + 1] == '|'
    ensures forall k :: 0 <= k < |acc + [r]| ==> WellFormedRange((acc + [r])[k])
    ensures ParseRanges(s, p, acc, errno).result == ParseRanges(s, next, acc + [r], ParseRange(s, q, errno).errno).result
  {
    var k := e1 + 1;
    ConfigImages.BarGlue(s, e1, k);
    RangeStart(s, p, q, r);
    ReadsRange(s, q, r, e1, errno);
    ParseRangesBar(s, p, acc, errno, q, Config.Parsed([r], e1), k, next);
  }

  lemma AppendFirst(acc: seq<Range>, rs: seq<Range>)
    requires 0 < |rs|
    ensures acc + [rs[0]] + rs[1..] == acc + rs
  {
    assert [rs[0]] + rs[1..] == rs;
    assert acc + [rs[0]] + rs[1..] == acc + ([rs[0]] + rs[1..]);
  }

  /** A written range list, followed by white space and then by neither '~'
      nor '|', is read back as itself after the ranges read before it,
      whatever errno was. */
  lemma {:induction false} ReadsRanges(s: string, p: nat, q: nat, acc: seq<Range>, rs: seq<Range>, e: nat, errno: bool)
    requires 0 < |rs| && forall k :: 0 <= k < |rs| ==> IntegerRange(rs[k])
    requires |acc| + |rs| <= LEGACY_NUMBER_OF_RANGES
    requires forall k :: 0 <= k < |acc| ==> WellFormedRange(acc[k])
    requires p <= q && e == q + |RangesImage(rs)|
    requires ConfigImages.At(s, q, RangesImage(rs)) && ConfigImages.Blank(s, p, q)
    requires e < |s| && IsSpace(s[e]) && SkipSpace(s, e) < |s|
    requires s[SkipSpace(s, e)] != '~' && s[SkipSpace(s, e)] != '|'
    ensures ParseRanges(s, p, acc, errno).result == Some(Config.Parsed(acc + rs, SkipSpace(s, e)))
    decreases |rs|
  {
    hide ParseRanges, ParseRange;
    var r := rs[0];
    if |rs| == 1 {
      ReadsLastRange(s, p, q, acc, r, e, errno);
      assert rs == [r];
    } else {
      var e1 := q + |RangeImage(r)|;
      var next, w := e1 + 2, e1 + 3;
      RangesText(s, q, rs, e1, next, w, e);
      ReadsRangeThenBar(s, p, q, acc, r, e1, next, errno);
      ReadsRanges(s, next, w, acc + [r], rs[1..], e, ParseRange(s, q, errno).errno);
      AppendFirst(acc, rs);
    }
  }

  /** Where the first range, the ` | ` and the rest of a written list sit. */
  lemma RangesText(s: string, q: nat, rs: seq<Range>, e1: nat, next: nat, w: nat, e: nat)
    requires 1 < |rs| && forall k :: 0 <= k < |rs| ==> IntegerRange(rs[k])
    requires e == q + |RangesImage(rs)| && ConfigImages.At(s, q, RangesImage(rs))
    requires e1 == q + |RangeImage(rs[0])| && next == e1 + 2 && w == e1 + 3
    ensures ConfigImages.At(s, q, RangeImage(rs[0])) && ConfigImages.At(s, w, RangesImage(rs[1..]))
    ensures e1 + 1 < |s| && s[e1] == ' ' && s[e1 + 1] == '|'
    ensures w <= |s| && ConfigImages.Blank(s, next, w) && e == w + |RangesImage(rs[1..])|
  {
    var t, rest := RangeImage(rs[0]), RangesImage(rs[1..]);
    ConfigImages.Around(s, q, t, " | ", rest, e1);
    ConfigImages.SpaceGlue(s, next, w);
  }

  // ----------------------------------------------------------------- lines

  /** The range lists written here: one to sixteen integer ranges. */
  predicate IntegerRanges(rs: seq<Range>)
  {
    0 < |rs| <= LEGACY_NUMBER_OF_RANGES && forall k :: 0 <= k < |rs| ==> IntegerRange(rs[k])
  }

  /** The configuration line for an entry of element 1: name, ranges and
      command, one space apart. */
  function LineImage(name: string, rs: seq<Range>, cmd: string): (s: string)
    requires IntegerRanges(rs)
  {
    name + " " + RangesImage(rs) + " " + cmd
  }

  /** The line for an entry of a later array element: the element number in
      brackets after the name. */
  function IndexedLineImage(name: string, index: nat, rs: seq<Range>, cmd: string): (s: string)
    requires IntegerRanges(rs)
  {
    name + " " + ("[" + NatImage(index) + "] " + (RangesImage(rs) + " " + cmd))
  }

  /** After a PV name that ends at n, the line goes on with its index when
      a '[' follows, else with its items. */
  lemma LineAfterName(s: string, n: nat, j: nat, errno: bool)
    requires 0 < n <= j < |s| && SkipSpace(s, 0) == 0 && Config.WordEnd(s, 0) == n && SkipSpace(s, n) == j
    requires IsAlnum(s[0]) || s[0] == '$'
    ensures |s[0..n]| > 0 && (IsAlnum(s[0..n][0]) || s[0..n][0] == '$')
    ensures s[j] != '[' ==> ParseLineWithErrno(s, errno) == RangesAndCommand(s, j, s[0..n], 1, errno)
    ensures s[j] == '[' ==> ParseLineWithErrno(s, errno) == IndexThenRest(s, j, s[0..n], errno)
  {
    hide RangesAndCommand, IndexThenRest;
    assert s[0..n][0] == s[0];
  }

  /** A one-word command that ends the line is the word read there. */
  lemma CommandWord(s: string, c: nat, cmd: string)
    requires ConfigImages.OneWordCommand(cmd) && c < |s| && s[c..] == cmd
    ensures Config.WordEnd(s, c) == |s| && s[c..Config.WordEnd(s, c)] == cmd
  {
    forall k | c <= k < |s|
      ensures !IsSpace(s[k])
    {
      assert s[k] == cmd[k - c];
    }
    ConfigImages.WordEndAt(s, c, |s|);
  }

  /** Written ranges from j and a one-word command that ends the line are
      the entry's ranges and command. */
  lemma ReadsTail(s: string, p: nat, j: nat, name: string, index: int, rs: seq<Range>, e: nat, c: nat,
                  cmd: string, errno: bool)
    requires IntegerRanges(rs) && ConfigImages.OneWordCommand(cmd)
    requires |name| > 0 && (IsAlnum(name[0]) || name[0] == '$') && index >= 1 && IsInt(index)
    requires p <= j && ConfigImages.At(s, j, RangesImage(rs)) && ConfigImages.Blank(s, p, j)
    requires e == j + |RangesImage(rs)| && e < |s| && IsSpace(s[e]) && SkipSpace(s, e) == c
    requires c < |s| && s[c] != '~' && s[c] != '|' && s[c..] == cmd
    ensures RangesAndCommand(s, p, name, index, errno).entry == Some(LegacyEntry(name, index, rs, cmd))
  {
    hide RangesAndCommand, ParseRanges, ScanValue;
    ReadsRanges(s, p, j, [], rs, e, errno);
    assert [] + rs == rs;
    RangesAndCommandReads(s, p, name, index, errno);
    CommandWord(s, c, cmd);
  }

  /** The older parse_line reads the line written for an entry back as that
      entry, element 1, whatever errno was: a line without an index never
      looks at it. */
  lemma AcceptsLine(name: string, rs: seq<Range>, cmd: string, errno: bool)
    requires ConfigImages.PvName(name) && IntegerRanges(rs) && ConfigImages.OneWordCommand(cmd)
    ensures ParseLineWithErrno(LineImage(name, rs, cmd), errno).entry == Some(LegacyEntry(name, 1, rs, cmd))
    ensures ParseLine(LineImage(name, rs, cmd)) == Some(LegacyEntry(name, 1, rs, cmd))
  {
    hide RangesAndCommand, IndexThenRest, ParseRanges, ScanValue;
    var t := RangesImage(rs);
    var s := LineImage(name, rs, cmd);
    var n := |name|;
    var j := n + 1;
    var e := j + |t|;
    var c := e + 1;
    RangesImageStart(rs);
    ConfigImages.LineText(s, name, t, cmd, n, j, e, c);
    LineAfterName(s, n, j, errno);
    ReadsTail(s, j, j, name, 1, rs, e, c, cmd, errno);
    LineAfterName(s, n, j, false);
    ReadsTail(s, j, j, name, 1, rs, e, c, cmd, false);
  }

  /** Where the parts of an indexed line sit, as the older reader needs
      them: the '[' at j, the digits after it up to the ']' at close, the
      ranges from i to e and the command from c. */
  lemma LegacyIndexedText(s: string, name: string, d: string, t: string, cmd: string,
                          n: nat, j: nat, close: nat, i: nat, e: nat, c: nat)
    requires ConfigImages.PvName(name) && ConfigImages.OneWordCommand(cmd) && 0 < |t| && !IsSpace(t[0])
    requires 0 < |d| && forall k :: 0 <= k < |d| ==> IsDigit(d[k])
    requires s == name + " " + ("[" + d + "] " + (t + " " + cmd))
    requires n == |name| && j == n + 1 && close == j + 1 + |d| && i == close + 2
    requires e == i + |t| && c == e + 1
    ensures 0 < n <= j < |s| && SkipSpace(s, 0) == 0 && Config.WordEnd(s, 0) == n && SkipSpace(s, n) == j
    ensures (IsAlnum(s[0]) || s[0] == '$') && s[0..n] == name && s[j] == '['
    ensures close < |s| && s[close] == ']' && s[j + 1..] == d + s[close..]
    ensures SkipSpace(s, j + 1) == j + 1
    ensures i < |s| && ConfigImages.Blank(s, close + 1, i)
    ensures ConfigImages.At(s, i, t) && ConfigImages.Blank(s, i, i)
    ensures e < |s| && IsSpace(s[e]) && SkipSpace(s, e) == c
    ensures c < |s| && !IsSpace(s[c]) && s[c] != '~' && s[c] != '|' && s[c..] == cmd
  {
    ConfigImages.IndexedLineText(s, name, d, t, cmd, n, j, close, i, e, c);
    var rest := "[" + d + "] " + (t + " " + cmd);
    assert s[j..] == rest;
    BracketDigits(s, j, d, t + " " + cmd, close);
  }

  /** "[" + d + "] " at j: the digits from j + 1 run up to the ']' at close,
      and one space follows it. */
  lemma BracketDigits(s: string, j: nat, d: string, tail: string, close: nat)
    requires 0 < |d| && forall k :: 0 <= k < |d| ==> IsDigit(d[k])
    requires j <= |s| && s[j..] == "[" + d + "] " + tail && close == j + 1 + |d|
    ensures close + 1 < |s| && s[close] == ']' && s[close + 1] == ' ' && s[j + 1..] == d + s[close..]
    ensures SkipSpace(s, j + 1) == j + 1
  {
    var b := "[" + d + "] " + tail;
    assert s[close] == b[|d| + 1] == ']';
    assert s[close + 1] == b[|d| + 2] == ' ';
    assert s[j + 1..] == b[1..];
    assert b[1..] == d + b[|d| + 1..];
    assert s[close..] == b[|d| + 1..];
    assert s[j + 1] == d[0];
    ConfigImages.SkipSpaceTo(s, j + 1, j + 1);
  }

  /** The index strtol reads after the '[' at j. */
  lemma LegacyIndexReads(s: string, j: nat, d: string, index: nat, close: nat)
    requires j < |s| && d == NatImage(index) && close == j + 1 + |d|
    requires close < |s| && s[close] == ']' && s[j + 1..] == d + s[close..]
    ensures StrToL(s[j + 1..], 10)
            == if index > LONG_MAX then Conversion(LONG_MAX, |d|, true) else Conversion(index, |d|, false)
  {
    assert s[close..][0] == ']';
    StrToLReadsDigitsPrefix(index, s[close..]);
  }

  /** An index that fits an int and is at least 1, read with errno clear,
      leads to the items after the ']'. */
  lemma IndexLeadsToRanges(s: string, j: nat, name: string, index: nat, close: nat, p: nat)
    requires j < |s| && s[j] == '[' && |name| > 0 && (IsAlnum(name[0]) || name[0] == '$')
    requires 1 <= index && IsInt(index)
    requires j + 1 < close < |s| && s[close] == ']' && p == close + 1
    requires SkipSpace(s, j + 1) == j + 1 && StrToL(s[j + 1..], 10) == Conversion(index, close - (j + 1), false)
    ensures IndexThenRest(s, j, name, false) == RangesAndCommand(s, p, name, index, false)
  {
    hide RangesAndCommand;
    ConfigImages.SkipSpaceTo(s, close, close);
  }

  /** The older parse_line, errno clear, reads the line written for an
      entry of element `index` back as that entry. */
  lemma AcceptsIndexedLine(name: string, index: nat, rs: seq<Range>, cmd: string)
    requires ConfigImages.PvName(name) && IntegerRanges(rs) && ConfigImages.OneWordCommand(cmd)
    requires 1 <= index && IsInt(index)
    ensures ParseLineWithErrno(IndexedLineImage(name, index, rs, cmd), false).entry == Some(LegacyEntry(name, index, rs, cmd))
    ensures ParseLine(IndexedLineImage(name, index, rs, cmd)) == Some(LegacyEntry(name, index, rs, cmd))
  {
    hide ParseLine, ParseLineWithErrno, RangesAndCommand, IndexThenRest, ParseRanges, ScanValue, IndexedLineImage;
    var d := NatImage(index);
    var t := RangesImage(rs);
    var s := IndexedLineImage(name, index, rs, cmd);
    var n := |name|;
    var j := n + 1;
    var close := j + 1 + |d|;
    var i := close + 2;
    var e := i + |t|;
    var c := e + 1;
    IndexedLineLayout(s, name, index, rs, cmd, d, t, n, j, close, i, e, c);
    IndexedLineHead(s, name, index, n, j, close);
    ReadsTail(s, close + 1, i, name, index, rs, e, c, cmd, false);
    ParseLineClear(s);
  }

  /** Where the parts of the line written for an indexed entry sit. */
  lemma IndexedLineLayout(s: string, name: string, index: nat, rs: seq<Range>, cmd: string,
                          d: string, t: string, n: nat, j: nat, close: nat, i: nat, e: nat, c: nat)
    requires ConfigImages.PvName(name) && IntegerRanges(rs) && ConfigImages.OneWordCommand(cmd)
    requires 1 <= index && IsInt(index)
    requires s == IndexedLineImage(name, index, rs, cmd) && d == NatImage(index) && t == RangesImage(rs)
    requires n == |name| && j == n + 1 && close == j + 1 + |d| && i == close + 2
    requires e == i + |t| && c == e + 1
    ensures 0 < n <= j < |s| && SkipSpace(s, 0) == 0 && Config.WordEnd(s, 0) == n && SkipSpace(s, n) == j
    ensures (IsAlnum(s[0]) || s[0] == '$') && s[0..n] == name && s[j] == '['
    ensures |name| > 0 && (IsAlnum(name[0]) || name[0] == '$')
    ensures j + 1 < close < |s| && s[close] == ']'
    ensures SkipSpace(s, j + 1) == j + 1 && StrToL(s[j + 1..], 10) == Conversion(index, close - (j + 1), false)
    ensures i < |s| && ConfigImages.Blank(s, close + 1, i)
    ensures ConfigImages.At(s, i, t) && ConfigImages.Blank(s, i, i)
    ensures e < |s| && IsSpace(s[e]) && SkipSpace(s, e) == c
    ensures c < |s| && !IsSpace(s[c]) && s[c] != '~' && s[c] != '|' && s[c..] == cmd
  {
    RangesImageStart(rs);
    LegacyIndexedText(s, name, d, t, cmd, n, j, close, i, e, c);
    LegacyIndexReads(s, j, d, index, close);
  }

  /** The name and the bracketed index of an indexed line. */
  lemma IndexedLineHead(s: string, name: string, index: nat, n: nat, j: nat, close: nat)
    requires 1 <= index && IsInt(index)
    requires 0 < n <= j < |s| && SkipSpace(s, 0) == 0 && Config.WordEnd(s, 0) == n && SkipSpace(s, n) == j
    requires (IsAlnum(s[0]) || s[0] == '$') && s[0..n] == name && s[j] == '['
    requires |name| > 0 && (IsAlnum(name[0]) || name[0] == '$')
    requires j + 1 < close < |s| && s[close] == ']'
    requires SkipSpace(s, j + 1) == j + 1 && StrToL(s[j + 1..], 10) == Conversion(index, close - (j + 1), false)
    ensures ParseLineWithErrno(s, false) == RangesAndCommand(s, close + 1, name, index, false)
  {
    hide ParseLineWithErrno, RangesAndCommand, IndexThenRest, ParseRanges, ScanValue;
    LineAfterName(s, n, j, false);
    IndexLeadsToRanges(s, j, name, index, close, close + 1);
  }

  /** parse_line with errno clear is the as-written parse started with a
      clear errno. */
  lemma ParseLineClear(s: string)
    ensures ParseLine(s) == ParseLineWithErrno(s, false).entry
  {
    hide ParseLineWithErrno;
  }

  /** The line written for an index beyond a long has an index, and its
      strtol reports a range error. */
  lemma IndexBeyondLong(name: string, index: nat, rs: seq<Range>, cmd: string)
    requires ConfigImages.PvName(name) && IntegerRanges(rs) && ConfigImages.OneWordCommand(cmd)
    requires index > LONG_MAX
    ensures var s := IndexedLineImage(name, index, rs, cmd);
            !Ignored(s) && s[SkipSpace(s, 0)..] == s && HasIndex(s) && IndexConversion(s).rangeError
  {
    var d := NatImage(index);
    var t := RangesImage(rs);
    var s := IndexedLineImage(name, index, rs, cmd);
    var n := |name|;
    var j := n + 1;
    var close := j + 1 + |d|;
    RangesImageStart(rs);
    LegacyIndexedText(s, name, d, t, cmd, n, j, close, close + 2, close + 2 + |t|, close + 3 + |t|);
    LegacyIndexReads(s, j, d, index, close);
    assert IndexBracket(s) == j;
  }

  /** ... and so has the line written for any other index. */
  lemma IndexedLineHasIndex(name: string, index: nat, rs: seq<Range>, cmd: string)
    requires ConfigImages.PvName(name) && IntegerRanges(rs) && ConfigImages.OneWordCommand(cmd)
    ensures var s := IndexedLineImage(name, index, rs, cmd);
            !Ignored(s) && s[SkipSpace(s, 0)..] == s && HasIndex(s)
  {
    var d := NatImage(index);
    var t := RangesImage(rs);
    var s := IndexedLineImage(name, index, rs, cmd);
    var n := |name|;
    var j := n + 1;
    var close := j + 1 + |d|;
    RangesImageStart(rs);
    LegacyIndexedText(s, name, d, t, cmd, n, j, close, close + 2, close + 2 + |t|, close + 3 + |t|);
  }

  /** The stale-errno defect on written lines: after a line whose index is
      beyond a long, the reader as written drops the next indexed line
      whatever it says, while the reader that clears errno first keeps it.
      `A [99999999999999999999] 1 cmd` followed by `B [2] 1 cmd` is one
      such pair. */
  lemma StaleErrnoDropsWrittenLine(name1: string, big: nat, rs1: seq<Range>, cmd1: string,
                                   name2: string, index: nat, rs2: seq<Range>, cmd2: string)
    requires ConfigImages.PvName(name1) && IntegerRanges(rs1) && ConfigImages.OneWordCommand(cmd1)
    requires big > LONG_MAX
    requires ConfigImages.PvName(name2) && IntegerRanges(rs2) && ConfigImages.OneWordCommand(cmd2)
    requires 1 <= index && IsInt(index)
    ensures var first := IndexedLineImage(name1, big, rs1, cmd1);
            var second := IndexedLineImage(name2, index, rs2, cmd2);
            ScanLinesAsWritten([first, second], false) == [] &&
            ScanLines([first, second]) == [Stored(LegacyEntry(name2, index, rs2, cmd2))]
  {
    var first := IndexedLineImage(name1, big, rs1, cmd1);
    var second := IndexedLineImage(name2, index, rs2, cmd2);
    IndexBeyondLong(name1, big, rs1, cmd1);
    IndexedLineHasIndex(name2, index, rs2, cmd2);
    AcceptsIndexedLine(name2, index, rs2, cmd2);
    StaleErrnoRejectsNextIndex(first, second);
  }
}
