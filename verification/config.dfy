/** The configuration reader of the newer revision
    (krytenApp/read_configuration.c): values, match items, whole entries and
    the file loop with its ';' sub-lines.

    Diagnostics are printed by the C code and have no effect on the result;
    they are not modelled. */
module Config {
  import opened Optional
  import opened CStrings
  import opened Numbers
  import opened Variants
  import opened ConfigLexer
  import opened Rules

  /** A parsed item and the position just after it. */
  datatype Parsed<T> = Parsed(value: T, end: nat)

  // ---------------------------------------------------------------- values

  /** How an unquoted token is classified: Integer if long_value accepts it,
      else Floating if double_value does, else a String of at most 40
      characters. */
  function ClassifyToken(item: string): (r: Option<Value>)
    ensures r.Some? ==> WellFormed(r.value) && !r.value.VoidValue?
    ensures r.Some? && r.value.IntegerValue? <==> LongValue(item).ok
    ensures r.Some? && r.value.IntegerValue? ==> r.value.i == LongValue(item).value
    ensures r.Some? && r.value.FloatingValue? <==> DoubleValue(item).ok
    ensures r.Some? && r.value.StringValue? ==> r.value.s == item && !LongValue(item).ok && !DoubleValue(item).ok
    ensures r.None? <==> !LongValue(item).ok && !DoubleValue(item).ok && |item| > MAX_STRING_SIZE
  {
    var l := LongValue(item);
    if l.ok then Some(IntegerValue(l.value))
    else
      var d := DoubleValue(item);
      if d.ok then Some(FloatingValue(d.value))
      else if |item| <= MAX_STRING_SIZE then Some(StringValue(item))
      else None
  }

  /** parse_value: skip white space, fail at end of line, then read one
      token; a quoted token is a String without its quotes, any other token is
      classified by ClassifyToken.
      (krytenApp/read_configuration.c:80-187) */
  function ParseValue(s: string, pos: nat): (r: Option<Parsed<Value>>)
    requires pos <= |s|
    ensures SkipSpace(s, pos) == |s| ==> r.None?
    ensures r.Some? ==> WellFormed(r.value.value) && !r.value.value.VoidValue?
    ensures r.Some? ==> r.value.end == TokenEnd(s, SkipSpace(s, pos))
    ensures r.Some? ==> pos <= r.value.end <= |s|
  {
    var start := SkipSpace(s, pos);
    if start == |s| then None
    else
      var item := Item(s, start);
      var end := TokenEnd(s, start);
      if Quoted(item) then
        match QuotedPayload(item)
        case None => None
        case Some(text) => Some(Parsed(StringValue(text), end))
      else
        match ClassifyToken(item)
        case None => None
        case Some(v) => Some(Parsed(v, end))
  }

  /** The value read is the token's: for a quoted token the corrected
      payload between the quotes, for any other the classification of the
      token as copied into the item buffer; the read fails exactly when that
      does. */
  lemma ParseValueReadsToken(s: string, pos: nat)
    requires pos <= |s|
    ensures var r := ParseValue(s, pos); var start := SkipSpace(s, pos); var item := Item(s, start);
            start < |s| && Quoted(item) ==>
              (r.Some? <==> QuotedPayload(item).Some?) &&
              (r.Some? ==> r.value.value == StringValue(QuotedPayload(item).value))
    ensures var r := ParseValue(s, pos); var start := SkipSpace(s, pos); var item := Item(s, start);
            start < |s| && !Quoted(item) ==>
              (r.Some? <==> ClassifyToken(item).Some?) &&
              (r.Some? ==> r.value.value == ClassifyToken(item).value)
  {
  }

  /** The decimal image of a long parses back to the same Integer, and the
      whole image is consumed. */
  lemma ParseValueReadsDecimalImage(i: int)
    requires IsLong(i)
    ensures ParseValue(DecimalImage(i), 0) == Some(Parsed(IntegerValue(i), |DecimalImage(i)|))
  {
    var s := DecimalImage(i);
    DecimalImageIsOneToken(i);
    LongValueReadsDecimalImage(i);
    assert ClassifyToken(s) == Some(IntegerValue(i));
  }

  /** The decimal image of a long is a single unquoted token, with no white
      space before it, that the token buffer holds whole. */
  lemma DecimalImageIsOneToken(i: int)
    requires IsLong(i)
    ensures var s := DecimalImage(i);
            |s| > 0 && SkipSpace(s, 0) == 0 && s[0] != '"' && TokenEnd(s, 0) == |s| && Item(s, 0) == s
  {
    var s := DecimalImage(i);
    DecimalImageLength(i);
    assert !IsSpace(s[0]);
    assert SkipSpace(s, 0) == 0;
    forall k | 0 <= k < |s|
      ensures !EndsBareToken(s[k])
    {
      if k > 0 {
        assert s[k] in NatImage(if i < 0 then -i else i);
      }
    }
    assert BareEnd(s, 0) == |s|;
    assert s[0..][..|s|] == s;
  }

  /** A string of at most 40 characters without a double quote, written
      between quotes, parses back to that string. */
  lemma ParseValueReadsQuotedString(text: string, rest: string)
    requires |text| <= MAX_STRING_SIZE
    requires forall k :: 0 <= k < |text| ==> text[k] != '"'
    ensures ParseValue("\"" + text + "\"" + rest, 0)
         == Some(Parsed(StringValue(text), |text| + 2))
  {
    var s := "\"" + text + "\"" + rest;
    assert !IsSpace(s[0]);
    assert SkipSpace(s, 0) == 0;
    assert s[0..|text| + 2] == "\"" + text + "\"";
    QuotedTokenText(s, 0, text);
    assert ("\"" + text + "\"")[1..|text| + 1] == text;
  }

  // ----------------------------------------------------------- match items

  /** The operator table of parse_match without its empty entry 0, in the
      order it is searched. */
  const Operators: seq<(string, Comparison)> :=
    [("/=", NotEqual), ("<=", LessThanEqual), (">=", GreaterThanEqual),
     ("=", Equal), ("<", LessThan), (">", GreaterThan)]

  /** Table entry k carries the comparison whose enumeration value is k + 1,
      and no operator is a prefix of one searched after it, so "<=" is never
      read as "<" followed by "=". */
  lemma OperatorTableOrder()
    ensures forall k :: 0 <= k < |Operators| ==> Ordinal(Operators[k].1) == k + 1
    ensures forall k, l :: 0 <= k < l < |Operators| ==> !(Operators[k].0 <= Operators[l].0)
  {
    forall k, l | 0 <= k < l < |Operators|
      ensures |Operators[k].0| > |Operators[l].0| || Operators[k].0[0] != Operators[l].0[0]
    {
    }
  }

  /** The first operator, from table entry e on, that the text at i starts
      with: its length and its comparison. */
  function OperatorAt(s: string, i: nat, e: nat): (r: Option<(nat, Comparison)>)
    requires i <= |s| && e <= |Operators|
    ensures r.Some? ==> exists k :: e <= k < |Operators| && |Operators[k].0| == r.value.0
                                    && Operators[k].1 == r.value.1 && Operators[k].0 <= s[i..]
    ensures r.Some? ==> i + r.value.0 <= |s| && r.value.1 != NoComparison && r.value.1 != Range
    ensures r.None? <==> forall k :: e <= k < |Operators| ==> !(Operators[k].0 <= s[i..])
    decreases |Operators| - e
  {
    if e == |Operators| then None
    else if Operators[e].0 <= s[i..] then Some((|Operators[e].0|, Operators[e].1))
    else OperatorAt(s, i, e + 1)
  }

  /** parse_match: an operator followed by exactly one value, or a value,
      or `value ~ value`; a lone value means Equal. Running into the end of
      the line after the first value is an error.
      (krytenApp/read_configuration.c:195-266) */
  function ParseMatch(s: string, pos: nat): (r: Option<Parsed<Rule>>)
    requires pos <= |s|
    ensures r.Some? ==> WellFormedRule(r.value.value)
    ensures r.Some? ==> pos <= r.value.end <= |s|
    ensures SkipSpace(s, pos) == |s| ==> r.None?
  {
    var i := SkipSpace(s, pos);
    if i == |s| then None
    else
      var op := OperatorAt(s, i, 0);
      if op.Some? then ParseOperatorMatch(s, i + op.value.0, op.value.1)
      else ParseValueMatch(s, i)
  }

  /** Text that starts with none of the operators is read as a value
      match, after its leading white space. */
  lemma ParseMatchWithoutOperator(s: string, pos: nat)
    requires pos <= |s|
    requires SkipSpace(s, pos) < |s| && OperatorAt(s, SkipSpace(s, pos), 0).None?
    ensures ParseMatch(s, pos) == ParseValueMatch(s, SkipSpace(s, pos))
  {
  }

  /** After an operator: exactly one value, which the line must reach (a
      blank rest of line is parse_value's own failure). */
  function ParseOperatorMatch(s: string, pos: nat, comp: Comparison): (r: Option<Parsed<Rule>>)
    requires pos <= |s| && comp != NoComparison && comp != Range
    ensures r.Some? ==> WellFormedRule(r.value.value)
    ensures r.Some? ==> pos <= r.value.end <= |s|
    ensures r.Some? ==> r.value.value.comp == comp && r.value.value.upper == VoidValue
    ensures SkipSpace(s, pos) == |s| ==> r.None?
    ensures r.Some? <==> ParseValue(s, pos).Some?
    ensures r.Some? ==> r.value == Parsed(Rule(comp, ParseValue(s, pos).value.value, VoidValue), ParseValue(s, pos).value.end)
  {
    match ParseValue(s, pos)
    case None => None
      case Some(v) => Some(Parsed(Rule(comp, v.value, VoidValue), v.end))
  }

  /** Without an operator: a value, then `~ value` for a range, or an Equal
      rule; the line must go on after the first value, and after the '~'
      (a blank rest of line is again parse_value's failure). */
  function ParseValueMatch(s: string, i: nat): (r: Option<Parsed<Rule>>)
    requires i <= |s|
    ensures r.Some? ==> WellFormedRule(r.value.value)
    ensures r.Some? ==> i <= r.value.end <= |s|
    ensures r.Some? ==> (r.value.value.comp == Range || r.value.value.comp == Equal)
  {
    match ParseValue(s, i)
    case None => None
    case Some(lo) => AfterLower(s, lo, UpperValue(s, lo.end))
  }

  /** The value after a '~' that follows position e, if there is one. */
  function UpperValue(s: string, e: nat): (r: Option<Parsed<Value>>)
    requires e <= |s|
    ensures r.Some? ==> WellFormed(r.value.value) && !r.value.value.VoidValue?
    ensures r.Some? ==> e < r.value.end <= |s|
  {
    var k := SkipSpace(s, e);
    if k < |s| && s[k] == '~' then ParseValue(s, k + 1) else None
  }

  /** What follows the first value lo of a match item, hi being the value
      read after a '~': with the '~' the rule is the Range from lo to hi
      and needs hi, otherwise it is the Equal rule on lo; the end of the
      line is an error. */
  function AfterLower(s: string, lo: Parsed<Value>, hi: Option<Parsed<Value>>): (r: Option<Parsed<Rule>>)
    requires lo.end <= |s| && WellFormed(lo.value) && !lo.value.VoidValue?
    requires hi.Some? ==> WellFormed(hi.value.value) && !hi.value.value.VoidValue? && lo.end <= hi.value.end <= |s|
    ensures r.Some? ==> WellFormedRule(r.value.value)
    ensures r.Some? ==> lo.end <= r.value.end <= |s|
    ensures var k := SkipSpace(s, lo.end);
            r.Some? <==> k < |s| && (s[k] == '~' ==> hi.Some?)
    ensures var k := SkipSpace(s, lo.end);
            r.Some? ==> r.value.value.lower == lo.value && (r.value.value.comp == Range <==> s[k] == '~')
    ensures var k := SkipSpace(s, lo.end);
            r.Some? && s[k] == '~' ==> r.value == Parsed(Rule(Range, lo.value, hi.value.value), hi.value.end)
    ensures var k := SkipSpace(s, lo.end);
            r.Some? && s[k] != '~' ==> r.value == Parsed(Rule(Equal, lo.value, VoidValue), lo.end)
  {
    var k := SkipSpace(s, lo.end);
    if k == |s| then None
    else if s[k] == '~' then
      match hi
      case None => None
      case Some(h) => Some(Parsed(Rule(Range, lo.value, h.value), h.end))
    else Some(Parsed(Rule(Equal, lo.value, VoidValue), lo.end))
  }

  /** A match item without an operator is read from its first value and the
      value after a '~' that may follow it; without a first value there is
      no rule. */
  lemma ParseValueMatchReadsLower(s: string, i: nat)
    requires i <= |s|
    ensures var lo := ParseValue(s, i);
            lo.Some? ==> ParseValueMatch(s, i) == AfterLower(s, lo.value, UpperValue(s, lo.value.end))
    ensures ParseValue(s, i).None? ==> ParseValueMatch(s, i).None?
  {
  }

  /** A value, a '~' and a second value are read as the Range between the
      two values. */
  lemma ValueMatchRange(s: string, i: nat, lo: Value, e1: nat, u: nat, hi: Value, e2: nat)
    requires i <= |s| && ParseValue(s, i) == Some(Parsed(lo, e1))
    requires u == e1 + 2 && u <= |s| && SkipSpace(s, e1) == e1 + 1 && s[e1 + 1] == '~'
    requires ParseValue(s, u) == Some(Parsed(hi, e2))
    ensures ParseValueMatch(s, i) == Some(Parsed(Rule(Range, lo, hi), e2))
  {
    UpperValueAfterTilde(s, e1);
    assert UpperValue(s, e1) == Some(Parsed(hi, e2));
    ParseValueMatchReadsLower(s, i);
    assert ParseValueMatch(s, i) == AfterLower(s, Parsed(lo, e1), Some(Parsed(hi, e2)));
  }

  /** A value that the line does not follow with a '~' is read as the Equal
      rule on that value. */
  lemma ValueMatchEqual(s: string, i: nat, v: Value, e: nat)
    requires i <= |s| && ParseValue(s, i) == Some(Parsed(v, e))
    requires SkipSpace(s, e) < |s| && s[SkipSpace(s, e)] != '~'
    ensures ParseValueMatch(s, i) == Some(Parsed(Rule(Equal, v, VoidValue), e))
  {
    ParseValueMatchReadsLower(s, i);
    assert ParseValueMatch(s, i) == AfterLower(s, Parsed(v, e), UpperValue(s, e));
  }

  /** The value after the '~' is read where the '~' ends. */
  lemma UpperValueAfterTilde(s: string, e: nat)
    requires e <= |s|
    ensures var k := SkipSpace(s, e);
            k < |s| && s[k] == '~' ==> UpperValue(s, e) == ParseValue(s, k + 1)
  {
  }

  /** Text that starts with an operator is read with that operator and the
      one value after it, the two-character operators taking precedence;
      the rule is accepted exactly when that value is. */
  lemma ParseMatchOperator(s: string, pos: nat, k: nat, u: nat)
    requires pos <= |s| && k < |Operators|
    requires Operators[k].0 <= s[SkipSpace(s, pos)..]
    requires forall l :: 0 <= l < k ==> !(Operators[l].0 <= s[SkipSpace(s, pos)..])
    requires u == SkipSpace(s, pos) + |Operators[k].0|
    ensures u <= |s|
    ensures ParseMatch(s, pos) == ParseOperatorMatch(s, u, Operators[k].1)
  {
    var i := SkipSpace(s, pos);
    assert i < |s|;
    OperatorAtFirst(s, i, 0, k);
  }

  lemma {:induction false} OperatorAtFirst(s: string, i: nat, e: nat, k: nat)
    requires i <= |s| && e <= k < |Operators|
    requires Operators[k].0 <= s[i..]
    requires forall l :: e <= l < k ==> !(Operators[l].0 <= s[i..])
    ensures OperatorAt(s, i, e) == Some((|Operators[k].0|, Operators[k].1))
    decreases k - e
  {
    if e < k {
      OperatorAtSkips(s, i, e);
      OperatorAtFirst(s, i, e + 1, k);
    } else {
      OperatorAtHits(s, i, e);
    }
  }

  lemma OperatorAtSkips(s: string, i: nat, e: nat)
    requires i <= |s| && e < |Operators|
    requires !(Operators[e].0 <= s[i..])
    ensures OperatorAt(s, i, e) == OperatorAt(s, i, e + 1)
  {
  }

  lemma OperatorAtHits(s: string, i: nat, e: nat)
    requires i <= |s| && e < |Operators|
    requires Operators[e].0 <= s[i..]
    ensures OperatorAt(s, i, e) == Some((|Operators[e].0|, Operators[e].1))
  {
  }

  // --------------------------------------------------------------- entries

  /** End of the run of non-white-space characters from i. */
  function WordEnd(s: string, i: nat): (e: nat)
    requires i <= |s|
    ensures i <= e <= |s|
    ensures forall k :: i <= k < e ==> !IsSpace(s[k])
    ensures e < |s| ==> IsSpace(s[e])
    decreases |s| - i
  {
    if i == |s| || IsSpace(s[i]) then i else WordEnd(s, i + 1)
  }

  /** The optional `[index]` at j, which is not white space: the text up to
      ']' must be a long whose int conversion is at least 1; without '[' the
      index is 1. A line must go on after the ']'. */
  function ParseIndex(s: string, j: nat): (r: Option<Parsed<int>>)
    requires j < |s| && !IsSpace(s[j])
    ensures r.Some? ==> r.value.value >= 1 && IsInt(r.value.value)
    ensures r.Some? ==> j <= r.value.end < |s| && !IsSpace(s[r.value.end])
    ensures s[j] != '[' ==> r == Some(Parsed(1, j))
    ensures s[j] == '[' && NextChar(s, j + 1, ']') == |s| ==> r.None?
    ensures s[j] == '[' && NextChar(s, j + 1, ']') < |s| ==>
              r == IndexAfter(s, NextChar(s, j + 1, ']'), LongValue(IndexText(s, j)))
  {
    if s[j] != '[' then Some(Parsed(1, j))
    else
      var close := NextChar(s, j + 1, ']');
      if close == |s| then None
      else IndexAfter(s, close, LongValue(IndexText(s, j)))
  }

  /** The text between the '[' at j and the next ']' (or the end of the
      line), as copied into the item buffer. */
  function IndexText(s: string, j: nat): (r: string)
    requires j < |s|
    ensures var close := NextChar(s, j + 1, ']');
            close - (j + 1) < MAX_LINE_LENGTH ==> r == s[j + 1..close]
  {
    Extract(s[j + 1..], NextChar(s, j + 1, ']') - (j + 1), MAX_LINE_LENGTH)
  }

  /** The index once long_value has read the text before the ']' at
      `close`: its `int` conversion must be at least 1 and the line must go
      on. */
  function IndexAfter(s: string, close: nat, l: Scanned<int>): (r: Option<Parsed<int>>)
    requires close < |s|
    ensures r.Some? ==> r.value.value >= 1 && IsInt(r.value.value)
    ensures r.Some? ==> close < r.value.end < |s| && !IsSpace(s[r.value.end])
    ensures r.Some? <==> l.ok && ToInt(l.value) >= 1 && SkipSpace(s, close + 1) < |s|
    ensures r.Some? ==> r.value == Parsed(ToInt(l.value), SkipSpace(s, close + 1))
  {
    var index := ToInt(l.value);
    if !l.ok || index < 1 then None
    else
      var k := SkipSpace(s, close + 1);
      if k == |s| then None else Some(Parsed(index, k))
  }

  /** The loop over `|`-separated match items, `acc` holding those read so
      far: every item must be followed by more text, a '|' asks for another
      item, and a '|' after the 20th item is an error. */
  function ParseRules(s: string, pos: nat, acc: seq<Rule>): (r: Option<Parsed<seq<Rule>>>)
    requires pos <= |s| && |acc| < NUMBER_OF_VARIANT_RANGES
    requires forall k :: 0 <= k < |acc| ==> WellFormedRule(acc[k])
    ensures r.Some? ==> |acc| < |r.value.value| <= NUMBER_OF_VARIANT_RANGES
    ensures r.Some? ==> forall k :: 0 <= k < |r.value.value| ==> WellFormedRule(r.value.value[k])
    ensures r.Some? ==> pos <= r.value.end < |s| && !IsSpace(s[r.value.end]) && s[r.value.end] != '|'
    ensures r.Some? ==> r.value.value[..|acc|] == acc
    decreases |s| - pos, 1
  {
    match ParseMatch(s, pos)
    case None => None
    case Some(m) => RulesAfter(s, pos, acc, m)
  }

  /** The list goes on with the match item at pos: a parsed list holds acc,
      then that item. */
  lemma ParseRulesExtends(s: string, pos: nat, acc: seq<Rule>)
    requires pos <= |s| && |acc| < NUMBER_OF_VARIANT_RANGES
    requires forall k :: 0 <= k < |acc| ==> WellFormedRule(acc[k])
    ensures var r := ParseRules(s, pos, acc);
            r.Some? ==> ParseMatch(s, pos).Some? && r.value.value[|acc|] == ParseMatch(s, pos).value.value
  {
  }

  /** The rest of the loop once the match item m, begun at pos, has been
      read: it is appended to acc, and what follows it decides whether the
      list ends, goes on after a '|', or is in error. */
  function RulesAfter(s: string, pos: nat, acc: seq<Rule>, m: Parsed<Rule>): (r: Option<Parsed<seq<Rule>>>)
    requires pos <= m.end <= |s| && |acc| < NUMBER_OF_VARIANT_RANGES
    requires forall k :: 0 <= k < |acc| ==> WellFormedRule(acc[k])
    requires WellFormedRule(m.value)
    ensures r.Some? ==> |acc| < |r.value.value| <= NUMBER_OF_VARIANT_RANGES
    ensures r.Some? ==> forall k :: 0 <= k < |r.value.value| ==> WellFormedRule(r.value.value[k])
    ensures r.Some? ==> pos <= r.value.end < |s| && !IsSpace(s[r.value.end]) && s[r.value.end] != '|'
    ensures r.Some? ==> r.value.value[..|acc|] == acc && r.value.value[|acc|] == m.value
    decreases |s| - pos, 0
  {
    var rules := acc + [m.value];
    AppendRuleWellFormed(acc, m.value);
    var k := SkipSpace(s, m.end);
    if k == |s| then None
    else if s[k] != '|' then Some(Parsed(rules, k))
    else if |rules| >= NUMBER_OF_VARIANT_RANGES then None
    else
      var r := ParseRules(s, k + 1, rules);
      if r.Some? then PrefixStep(r.value.value, acc, m.value); r else r
  }

  /** A list that starts with acc + [x] starts with acc, followed by x. */
  lemma PrefixStep(l: seq<Rule>, acc: seq<Rule>, x: Rule)
    requires |acc| < |l| && l[..|acc| + 1] == acc + [x]
    ensures l[..|acc|] == acc && l[|acc|] == x
  {
    assert l[..|acc|] == l[..|acc| + 1][..|acc|];
  }

  /** The list read from pos is what follows the match item read there. */
  lemma ParseRulesStep(s: string, pos: nat, acc: seq<Rule>, m: Parsed<Rule>)
    requires pos <= |s| && |acc| < NUMBER_OF_VARIANT_RANGES
    requires forall k :: 0 <= k < |acc| ==> WellFormedRule(acc[k])
    requires ParseMatch(s, pos) == Some(m)
    ensures pos <= m.end <= |s| && WellFormedRule(m.value)
    ensures ParseRules(s, pos, acc) == RulesAfter(s, pos, acc, m)
  {
  }

  /** A match item that the line follows with anything but '|' ends the
      list, where that next character is. */
  lemma RulesAfterEnd(s: string, pos: nat, acc: seq<Rule>, m: Parsed<Rule>, k: nat)
    requires pos <= m.end <= |s| && |acc| < NUMBER_OF_VARIANT_RANGES
    requires forall j :: 0 <= j < |acc| ==> WellFormedRule(acc[j])
    requires WellFormedRule(m.value)
    requires k == SkipSpace(s, m.end) && k < |s| && s[k] != '|'
    ensures RulesAfter(s, pos, acc, m) == Some(Parsed(acc + [m.value], k))
  {
  }

  /** A match item followed by '|' lets the list go on after the '|', while
      it has room for one more item. */
  lemma RulesAfterBar(s: string, pos: nat, acc: seq<Rule>, m: Parsed<Rule>, k: nat, next: nat)
    requires pos <= m.end <= |s| && |acc| + 1 < NUMBER_OF_VARIANT_RANGES
    requires forall j :: 0 <= j < |acc| ==> WellFormedRule(acc[j])
    requires WellFormedRule(m.value)
    requires k == SkipSpace(s, m.end) && k < |s| && s[k] == '|' && next == k + 1
    ensures forall j :: 0 <= j < |acc + [m.value]| ==> WellFormedRule((acc + [m.value])[j])
    ensures RulesAfter(s, pos, acc, m) == ParseRules(s, next, acc + [m.value])
  {
    AppendRuleWellFormed(acc, m.value);
    RulesAfterGoesOn(s, pos, acc, m);
    SamePosition(s, SkipSpace(s, m.end) + 1, next, acc + [m.value]);
  }

  lemma RulesAfterGoesOn(s: string, pos: nat, acc: seq<Rule>, m: Parsed<Rule>)
    requires pos <= m.end <= |s| && |acc| + 1 < NUMBER_OF_VARIANT_RANGES
    requires forall j :: 0 <= j < |acc| ==> WellFormedRule(acc[j])
    requires WellFormedRule(m.value)
    requires SkipSpace(s, m.end) < |s| && s[SkipSpace(s, m.end)] == '|'
    ensures RulesAfter(s, pos, acc, m) == ParseRules(s, SkipSpace(s, m.end) + 1, acc + [m.value])
  {
    // Only the list's own step is needed, not how an item is read.
    hide ParseMatch;
  }

  /** One list read from one position: the read depends on the position's
      value alone, whichever sum names it. */
  lemma SamePosition(s: string, a: nat, b: nat, acc: seq<Rule>)
    requires a == b && a <= |s| && |acc| < NUMBER_OF_VARIANT_RANGES
    requires forall k :: 0 <= k < |acc| ==> WellFormedRule(acc[k])
    ensures ParseRules(s, a, acc) == ParseRules(s, b, acc)
  {
  }

  lemma AppendRuleWellFormed(acc: seq<Rule>, rule: Rule)
    requires forall k :: 0 <= k < |acc| ==> WellFormedRule(acc[k])
    requires WellFormedRule(rule)
    ensures forall k :: 0 <= k < |acc + [rule]| ==> WellFormedRule((acc + [rule])[k])
  {
  }

  /** The command copy: each run of white space between words becomes one
      space and white space at the end is dropped. */
  function Collapse(s: string, i: nat): (r: string)
    requires i <= |s|
    ensures forall k :: 0 <= k < |r| ==> r[k] == ' ' || !IsSpace(r[k])
    ensures |r| > 0 ==> r[|r| - 1] != ' '
    ensures forall k :: 0 <= k < |r| - 1 ==> !(r[k] == ' ' && r[k + 1] == ' ')
    ensures i < |s| && !IsSpace(s[i]) ==> |r| > 0 && r[0] == s[i]
    ensures |r| <= |s| - i
    decreases |s| - i
  {
    if i == |s| then ""
    else if !IsSpace(s[i]) then [s[i]] + Collapse(s, i + 1)
    else
      var j := SkipSpace(s, i);
      if j == |s| then "" else [' '] + Collapse(s, j)
  }

  /** The characters of s that are not white space. */
  function Solid(s: string): (r: string)
  {
    if |s| == 0 then ""
    else if IsSpace(s[0]) then Solid(s[1..])
    else [s[0]] + Solid(s[1..])
  }

  lemma {:induction false} SolidAppend(a: string, b: string)
    ensures Solid(a + b) == Solid(a) + Solid(b)
    decreases |a|
  {
    if |a| > 0 {
      assert (a + b)[0] == a[0];
      assert (a + b)[1..] == a[1..] + b;
      SolidAppend(a[1..], b);
    } else {
      assert a + b == b;
    }
  }

  /** Collapsing only touches white space: the words of the command are
      copied unchanged and in order. */
  lemma {:induction false} CollapseKeepsWords(s: string, i: nat)
    requires i <= |s|
    ensures Solid(Collapse(s, i)) == Solid(s[i..])
    decreases |s| - i
  {
    if i < |s| {
      assert s[i..] == [s[i]] + s[i + 1..];
      SolidAppend([s[i]], s[i + 1..]);
      if !IsSpace(s[i]) {
        CollapseKeepsWords(s, i + 1);
        SolidAppend([s[i]], Collapse(s, i + 1));
      } else {
        var j := SkipSpace(s, i);
        SolidOfSpaces(s, i, j);
        if j < |s| {
          CollapseKeepsWords(s, j);
          SolidAppend([' '], Collapse(s, j));
        }
      }
    }
  }

  lemma {:induction false} SolidOfSpaces(s: string, i: nat, j: nat)
    requires i <= j <= |s|
    requires forall k :: i <= k < j ==> IsSpace(s[k])
    ensures Solid(s[i..]) == Solid(s[j..])
    decreases j - i
  {
    if i < j {
      assert s[i..][1..] == s[i + 1..];
      SolidOfSpaces(s, i + 1, j);
    }
  }

  /** The parameter specification appended to a one-word command. */
  const DEFAULT_PARAMETERS: string := " %p %m %v %e"

  /** The command of an entry: the collapsed tail of the line, followed by
      the default parameters when it is a single word. */
  function CommandText(s: string, k: nat): (c: string)
    requires k < |s| && !IsSpace(s[k])
    ensures ' ' !in Collapse(s, k) ==> c == Collapse(s, k) + DEFAULT_PARAMETERS
    ensures ' ' in Collapse(s, k) ==> c == Collapse(s, k)
  {
    var text := Collapse(s, k);
    if ' ' in text then text else text + DEFAULT_PARAMETERS
  }

  /** parse_line: a PV name (a run of non-white-space that starts with a
      letter, a digit or '$'), an optional index, one to twenty match items
      separated by '|', and a command.
      (krytenApp/read_configuration.c:272-464) */
  function ParseLine(s: string): (r: Option<Entry>)
    ensures r.Some? ==> |r.value.pvName| > 0
    ensures r.Some? ==> IsAlnum(r.value.pvName[0]) || r.value.pvName[0] == '$'
    ensures r.Some? ==> forall k :: 0 <= k < |r.value.pvName| ==> !IsSpace(r.value.pvName[k])
    ensures r.Some? ==> r.value.index >= 1 && IsInt(r.value.index)
    ensures r.Some? ==> 1 <= |r.value.rules| <= NUMBER_OF_VARIANT_RANGES
    ensures r.Some? ==> forall k :: 0 <= k < |r.value.rules| ==> WellFormedRule(r.value.rules[k])
    ensures r.Some? ==> |r.value.command| > 0 && |r.value.command| <= |s| + |DEFAULT_PARAMETERS|
    ensures r.Some? ==> exists k :: 0 < k < |s| && !IsSpace(s[k]) && r.value.command == CommandText(s, k)
    ensures r.Some? ==> r.value.pvName == s[SkipSpace(s, 0)..WordEnd(s, SkipSpace(s, 0))]
  {
    var i := SkipSpace(s, 0);
    if i == |s| then None
    else
      var e := WordEnd(s, i);
      var name := s[i..e];
      if !(IsAlnum(name[0]) || name[0] == '$') then None
      else
        var j := SkipSpace(s, e);
        if j == |s| then None
        else ParseAfterName(s, j, name)
  }

  /** The rest of parse_line once the name is read: the index, the items and
      the command, which starts at a character that is not white space. */
  function ParseAfterName(s: string, j: nat, name: string): (r: Option<Entry>)
    requires j < |s| && !IsSpace(s[j])
    ensures r.Some? ==> r.value.pvName == name
    ensures r.Some? ==> r.value.index >= 1 && IsInt(r.value.index)
    ensures r.Some? ==> 1 <= |r.value.rules| <= NUMBER_OF_VARIANT_RANGES
    ensures r.Some? ==> forall k :: 0 <= k < |r.value.rules| ==> WellFormedRule(r.value.rules[k])
    ensures r.Some? ==> |r.value.command| > 0 && |r.value.command| <= |s| + |DEFAULT_PARAMETERS|
    ensures r.Some? ==> exists k :: j <= k < |s| && !IsSpace(s[k]) && r.value.command == CommandText(s, k)
    ensures r.Some? <==> ParseIndex(s, j).Some? && ParseRules(s, ParseIndex(s, j).value.end, []).Some?
    ensures r.Some? ==> var rs := ParseRules(s, ParseIndex(s, j).value.end, []).value;
              r.value == Entry(name, ParseIndex(s, j).value.value, rs.value, CommandText(s, rs.end))
  {
    match ParseIndex(s, j)
    case None => None
    case Some(ix) =>
      match ParseRules(s, ix.end, [])
      case None => None
      case Some(rs) => Some(Entry(name, ix.value, rs.value, CommandText(s, rs.end)))
  }

  // ------------------------------------------------------------ the file

  /** A line whose PV name runs from i, after the leading white space, to
      n, the rest starting at j, is read by ParseAfterName. The sub-lines
      after a ';' keep their leading blank and are read this way. */
  lemma ParseLineReadsName(s: string, i: nat, n: nat, j: nat)
    requires i < n <= j < |s|
    requires SkipSpace(s, 0) == i && WordEnd(s, i) == n && SkipSpace(s, n) == j
    requires IsAlnum(s[i]) || s[i] == '$'
    ensures !IsSpace(s[j])
    ensures ParseLine(s) == ParseAfterName(s, j, s[i..n])
  {
  }

  /** The entry assembled from an index, a rule list and the command that
      follows it. */
  lemma ParseAfterNameReads(s: string, j: nat, name: string, index: int, i: nat, rules: seq<Rule>, k: nat)
    requires j < |s| && !IsSpace(s[j])
    requires ParseIndex(s, j) == Some(Parsed(index, i))
    requires ParseRules(s, i, []) == Some(Parsed(rules, k))
    ensures k < |s| && !IsSpace(s[k])
    ensures ParseAfterName(s, j, name) == Some(Entry(name, index, rules, CommandText(s, k)))
  {
  }

  /** The sizes Scan_Configuration checks before allocating a client: a PV
      name of at most 79 characters and a command of at most 120. */
  predicate Fits(e: Entry)
  {
    |e.pvName| <= MAXIMUM_PVNAME_SIZE - 1 && |e.command| <= MATCH_COMMAND_LENGTH
  }

  /** The entries a sequence of sub-lines contributes: those that parse and
      fit, in order; the others are reported and skipped. */
  function ScanSubLines(subs: seq<string>): (r: seq<Entry>)
    ensures |r| <= |subs|
  {
    if |subs| == 0 then [] else SubLineEntry(subs[0]) + ScanSubLines(subs[1..])
  }

  /** The entry one sub-line contributes, if it parses and fits. */
  function SubLineEntry(sub: string): (r: seq<Entry>)
    ensures |r| <= 1
    ensures forall k :: 0 <= k < |r| ==> ValidEntry(r[k])
    ensures |r| == 1 <==> ParseLine(sub).Some? && Fits(ParseLine(sub).value)
  {
    match ParseLine(sub)
    case Some(e) => if Fits(e) then [e] else []
    case None => []
  }

  /** The entries one line contributes: none for a blank or comment line,
      otherwise those of its ';'-separated sub-lines. */
  function ScanLine(line: string): seq<Entry>
  {
    if Ignored(line) then [] else ScanSubLines(SubLines(line[SkipSpace(line, 0)..]))
  }

  function ScanLines(lines: seq<string>): seq<Entry>
  {
    if |lines| == 0 then [] else ScanLine(lines[0]) + ScanLines(lines[1..])
  }

  /** Scan_Configuration: the entries of a configuration text, in order. */
  function ScanConfiguration(text: string): seq<Entry>
  {
    ScanLines(Lines(text))
  }

  /** An entry that parses and passes the size checks is a valid client
      configuration. */
  predicate ValidEntry(e: Entry)
  {
    && Fits(e)
    && |e.pvName| > 0 && (IsAlnum(e.pvName[0]) || e.pvName[0] == '$')
    && e.index >= 1 && IsInt(e.index)
    && 1 <= |e.rules| <= NUMBER_OF_VARIANT_RANGES
    && (forall k :: 0 <= k < |e.rules| ==> WellFormedRule(e.rules[k]))
    && |e.command| > 0
  }

  lemma {:induction false} ScanSubLinesValid(subs: seq<string>)
    ensures forall k :: 0 <= k < |ScanSubLines(subs)| ==> ValidEntry(ScanSubLines(subs)[k])
    decreases |subs|
  {
    if |subs| > 0 {
      ScanSubLinesValid(subs[1..]);
      AppendValid(SubLineEntry(subs[0]), ScanSubLines(subs[1..]));
    }
  }

  lemma AppendValid(a: seq<Entry>, b: seq<Entry>)
    requires forall k :: 0 <= k < |a| ==> ValidEntry(a[k])
    requires forall k :: 0 <= k < |b| ==> ValidEntry(b[k])
    ensures forall k :: 0 <= k < |a + b| ==> ValidEntry((a + b)[k])
  {
  }

  lemma {:induction false} ScanLinesValid(lines: seq<string>)
    ensures forall k :: 0 <= k < |ScanLines(lines)| ==> ValidEntry(ScanLines(lines)[k])
    decreases |lines|
  {
    if |lines| > 0 {
      ScanLinesValid(lines[1..]);
      var line := lines[0];
      if !Ignored(line) {
        ScanSubLinesValid(SubLines(line[SkipSpace(line, 0)..]));
      }
    }
  }

  /** Every client the reader allocates has a valid configuration: a PV name
      that fits its 80-byte buffer, an index of at least 1, one to twenty
      well-formed rules and a command that fits its 121-byte buffer. */
  lemma ScanConfigurationValid(text: string)
    ensures forall k :: 0 <= k < |ScanConfiguration(text)| ==> ValidEntry(ScanConfiguration(text)[k])
  {
    ScanLinesValid(Lines(text));
  }

  lemma {:induction false} ScanLinesAppend(a: seq<string>, b: seq<string>)
    ensures ScanLines(a + b) == ScanLines(a) + ScanLines(b)
    decreases |a|
  {
    if |a| > 0 {
      assert (a + b)[0] == a[0];
      assert (a + b)[1..] == a[1..] + b;
      ScanLinesAppend(a[1..], b);
    } else {
      assert a + b == b;
    }
  }

  lemma {:induction false} MapLineTextAppend(a: seq<string>, b: seq<string>)
    requires forall k :: 0 <= k < |a| ==> |a[k]| <= FGETS_LIMIT
    requires forall k :: 0 <= k < |b| ==> |b[k]| <= FGETS_LIMIT
    ensures MapLineText(a + b) == MapLineText(a) + MapLineText(b)
  {
    var l := MapLineText(a + b);
    var r := MapLineText(a) + MapLineText(b);
    forall k | 0 <= k < |l|
      ensures l[k] == r[k]
    {
      if k < |a| {
        assert (a + b)[k] == a[k];
      } else {
        assert (a + b)[k] == b[k - |a|];
      }
    }
  }

  /** Lines are read independently: the entries of a text that ends in a
      newline, followed by more text, are the entries of the first part
      followed by those of the second. */
  lemma ScanConfigurationAppend(a: string, b: string)
    requires |a| > 0 && a[|a| - 1] == '\n'
    ensures ScanConfiguration(a + b) == ScanConfiguration(a) + ScanConfiguration(b)
  {
    ChunksAppend(a, b);
    ChunksBounded(a);
    ChunksBounded(b);
    MapLineTextAppend(Chunks(a), Chunks(b));
    assert Lines(a + b) == Lines(a) + Lines(b);
    ScanLinesAppend(Lines(a), Lines(b));
  }

  /** The command text from k is a single word: no white space before the
      trailing white space of the line. */
  predicate OneWord(s: string, k: nat)
    requires k <= |s|
  {
    forall j :: k <= j < TrimEnd(s) ==> !IsSpace(s[j])
  }

  /** The default parameters are appended exactly when the command is a
      single word, and the word is then copied unchanged. */
  lemma CommandParameters(s: string, k: nat)
    requires k < |s| && !IsSpace(s[k])
    ensures k < TrimEnd(s)
    ensures OneWord(s, k) ==> CommandText(s, k) == s[k..TrimEnd(s)] + DEFAULT_PARAMETERS
    ensures !OneWord(s, k) ==> CommandText(s, k) == Collapse(s, k) && ' ' in CommandText(s, k)
  {
    if OneWord(s, k) {
      CollapseOneWord(s, k);
      assert ' ' !in s[k..TrimEnd(s)];
    } else {
      var j :| k <= j < TrimEnd(s) && IsSpace(s[j]);
      CollapseHasSpace(s, k, j);
    }
  }

  lemma {:induction false} CollapseOneWord(s: string, i: nat)
    requires i <= |s|
    requires forall j :: i <= j < TrimEnd(s) ==> !IsSpace(s[j])
    ensures Collapse(s, i) == if i <= TrimEnd(s) then s[i..TrimEnd(s)] else ""
    decreases |s| - i
  {
    if i < |s| {
      if !IsSpace(s[i]) {
        assert i < TrimEnd(s);
        CollapseSolid(s, i);
        CollapseOneWord(s, i + 1);
        SliceFirst(s, i, TrimEnd(s));
      } else {
        assert i >= TrimEnd(s);
        assert SkipSpace(s, i) == |s|;
        CollapseTrailingSpace(s, i);
      }
    }
  }

  lemma SliceFirst(s: string, a: nat, b: nat)
    requires a < b <= |s|
    ensures s[a..b] == [s[a]] + s[a + 1..b]
  {
  }

  /** A character that is not white space is copied ... */
  lemma CollapseSolid(s: string, i: nat)
    requires i < |s| && !IsSpace(s[i])
    ensures Collapse(s, i) == [s[i]] + Collapse(s, i + 1)
  {
  }

  /** ... and white space that runs to the end of the line is dropped. */
  lemma CollapseTrailingSpace(s: string, i: nat)
    requires i < |s| && IsSpace(s[i]) && SkipSpace(s, i) == |s|
    ensures Collapse(s, i) == ""
  {
  }

  lemma {:induction false} CollapseHasSpace(s: string, i: nat, j: nat)
    requires i <= j < TrimEnd(s) && IsSpace(s[j])
    ensures ' ' in Collapse(s, i)
    decreases j - i
  {
    if IsSpace(s[i]) {
      assert SkipSpace(s, i) < TrimEnd(s);
      assert Collapse(s, i)[0] == ' ';
    } else {
      CollapseHasSpace(s, i + 1, j);
      CollapseSolid(s, i);
    }
  }
}
