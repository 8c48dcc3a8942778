/** The text of a configuration line of the newer revision, written from
    an entry, and the proof that parse_line reads that text back as the
    entry: the acceptance half of the reader's contract.

    The values of a match item are written as bare tokens: text with no
    white space, '~' or '|', that opens neither a quote nor an operator.
    The reading lemmas hold for any such token and the value it classifies
    as; a rule with integer values is written with their decimal images. */
module ConfigImages {
  import opened Optional
  import opened CStrings
  import opened Numbers
  import opened Variants
  import opened ConfigLexer
  import opened Rules
  import opened Config

  // ------------------------------------------------------------ positions

  /** White space from p up to a non-blank q is skipped to q. */
  lemma {:induction false} SkipSpaceTo(s: string, p: nat, q: nat)
    requires p <= q < |s| && !IsSpace(s[q])
    requires forall j :: p <= j < q ==> IsSpace(s[j])
    ensures SkipSpace(s, p) == q
    decreases q - p
  {
    if p < q {
      SkipSpaceTo(s, p + 1, q);
    }
  }

  /** A bare token runs to the first character that ends it. */
  lemma {:induction false} BareEndAt(s: string, p: nat, e: nat)
    requires p <= e <= |s|
    requires forall j :: p <= j < e ==> !EndsBareToken(s[j])
    requires e == |s| || EndsBareToken(s[e])
    ensures BareEnd(s, p) == e
    decreases e - p
  {
    if p < e {
      BareEndAt(s, p + 1, e);
    }
  }

  /** A word runs to the first white space. */
  lemma {:induction false} WordEndAt(s: string, p: nat, e: nat)
    requires p <= e <= |s|
    requires forall j :: p <= j < e ==> !IsSpace(s[j])
    requires e == |s| || IsSpace(s[e])
    ensures WordEnd(s, p) == e
    decreases e - p
  {
    if p < e {
      WordEndAt(s, p + 1, e);
    }
  }

  /** Text t sits at q in s. */
  predicate At(s: string, q: nat, t: string)
  {
    q + |t| <= |s| && s[q..q + |t|] == t
  }

  /** Only white space between p and q. */
  predicate Blank(s: string, p: nat, q: nat)
    requires p <= q <= |s|
  {
    forall j :: p <= j < q ==> IsSpace(s[j])
  }

  lemma AtChar(s: string, q: nat, t: string, k: nat)
    requires At(s, q, t) && k < |t|
    ensures s[q + k] == t[k]
  {
    assert s[q..q + |t|][k] == s[q + k];
  }

  /** The text at q starts with a ... */
  lemma AtPrefix(s: string, q: nat, a: string, b: string)
    requires At(s, q, a + b)
    ensures At(s, q, a)
  {
    assert s[q..q + |a|] == s[q..q + |a + b|][..|a|];
  }

  /** ... and goes on with b. */
  lemma AtSuffix(s: string, q: nat, a: string, b: string)
    requires At(s, q, a + b)
    ensures At(s, q + |a|, b)
  {
    assert s[q + |a|..q + |a| + |b|] == s[q..q + |a + b|][|a|..];
  }

  /** Text a, a three-character separator, then text b; a ends at e1. */
  lemma Around(s: string, q: nat, a: string, sep: string, b: string, e1: nat)
    requires |sep| == 3 && At(s, q, a + sep + b) && e1 == q + |a|
    ensures q + |a + sep + b| == e1 + 3 + |b|
    ensures At(s, q, a) && At(s, e1 + 3, b)
    ensures s[e1] == sep[0] && s[e1 + 1] == sep[1] && s[e1 + 2] == sep[2]
  {
    var t := a + sep + b;
    assert t == a + (sep + b);
    AtPrefix(s, q, a, sep + b);
    assert t[|a|] == sep[0] && t[|a| + 1] == sep[1] && t[|a| + 2] == sep[2];
    AtChar(s, q, t, |a|);
    AtChar(s, q, t, |a| + 1);
    AtChar(s, q, t, |a| + 2);
    AtSuffix(s, q, a + sep, b);
  }

  /** A separator ` c ` is skipped to c, and the blank after c is blank. */
  lemma SeparatorGlue(s: string, e1: nat, u: nat, w: nat)
    requires u == e1 + 2 && w == e1 + 3 && u < |s| && s[e1] == ' ' && !IsSpace(s[e1 + 1]) && s[u] == ' '
    ensures SkipSpace(s, e1) == e1 + 1 && Blank(s, u, w)
  {
  }

  // --------------------------------------------------------------- tokens

  /** The characters operators start with. */
  predicate OperatorChar(c: char)
  {
    c == '/' || c == '<' || c == '>' || c == '='
  }

  /** A value written as one bare token that opens no quote and no
      operator, short enough to be copied whole into the item buffer. */
  predicate BareToken(a: string)
  {
    && 0 < |a| <= FGETS_LIMIT
    && a[0] != '"' && !OperatorChar(a[0])
    && forall k :: 0 <= k < |a| ==> !EndsBareToken(a[k])
  }

  /** A bare token after white space is the item read there. */
  lemma TokenAt(s: string, p: nat, q: nat, a: string, e: nat)
    requires BareToken(a) && p <= q && e == q + |a|
    requires At(s, q, a) && Blank(s, p, q)
    requires e == |s| || EndsBareToken(s[e])
    ensures q < |s| && s[q] == a[0] && SkipSpace(s, p) == q
    ensures TokenEnd(s, q) == e && Item(s, q) == a && !Quoted(a)
  {
    forall j | q <= j < e
      ensures !EndsBareToken(s[j])
    {
      AtChar(s, q, a, j - q);
    }
    AtChar(s, q, a, 0);
    SkipSpaceTo(s, p, q);
    BareEndAt(s, q, e);
    assert TokenEnd(s, q) == e;
  }

  /** ... and parse_value reads it as the value it classifies as. */
  lemma ReadsToken(s: string, p: nat, q: nat, a: string, v: Value, e: nat)
    requires BareToken(a) && ClassifyToken(a) == Some(v) && p <= q && e == q + |a|
    requires At(s, q, a) && Blank(s, p, q)
    requires e == |s| || EndsBareToken(s[e])
    ensures ParseValue(s, p) == Some(Parsed(v, e))
  {
    TokenAt(s, p, q, a, e);
    ParseValueReadsToken(s, p);
  }

  /** The decimal image of a long is such a token, classified as that
      Integer. */
  lemma IntegerToken(v: int)
    requires IsLong(v)
    ensures BareToken(DecimalImage(v))
    ensures ClassifyToken(DecimalImage(v)) == Some(IntegerValue(v))
  {
    DecimalImageBare(v);
    LongValueReadsDecimalImage(v);
  }

  lemma DecimalImageBare(v: int)
    requires IsLong(v)
    ensures BareToken(DecimalImage(v))
  {
    var d := DecimalImage(v);
    DecimalImageLength(v);
    if v < 0 {
      var n := NatImage(-v);
      forall k | 0 <= k < |d|
        ensures !EndsBareToken(d[k])
      {
        if k > 0 {
          assert d[k] == n[k - 1];
        }
      }
    }
  }

  // ----------------------------------------------------------- match items

  /** A match item that starts with no operator is a value match. */
  lemma ValueStart(s: string, p: nat, q: nat)
    requires p <= q < |s| && SkipSpace(s, p) == q && !OperatorChar(s[q])
    ensures ParseMatch(s, p) == ParseValueMatch(s, q)
  {
    NoOperatorAt(s, q);
    ParseMatchWithoutOperator(s, p);
  }

  lemma OperatorStarts()
    ensures forall k :: 0 <= k < |Operators| ==> |Operators[k].0| > 0 && OperatorChar(Operators[k].0[0])
  {
  }

  /** No operator starts with another character. */
  lemma NoOperatorAt(s: string, q: nat)
    requires q < |s| && !OperatorChar(s[q])
    ensures OperatorAt(s, q, 0).None?
  {
    OperatorStarts();
    forall k | 0 <= k < |Operators|
      ensures !(Operators[k].0 <= s[q..])
    {
      assert s[q..][0] != Operators[k].0[0];
    }
  }

  /** Operator k, followed by a character no operator goes on with, starts
      with no operator searched before it. */
  lemma OperatorFirstAt(s: string, q: nat, k: nat)
    requires k < |Operators| && At(s, q, Operators[k].0)
    requires var u := q + |Operators[k].0|; u < |s| && !OperatorChar(s[u])
    ensures Operators[k].0 <= s[q..]
    ensures forall l :: 0 <= l < k ==> !(Operators[l].0 <= s[q..])
  {
    var op := Operators[k].0;
    assert s[q..][..|op|] == op;
    OperatorTableOrder();
    forall l | 0 <= l < k
      ensures !(Operators[l].0 <= s[q..])
    {
      var o := Operators[l].0;
      if |o| <= |op| {
        assert s[q..][..|o|] == op[..|o|];
        assert !(o <= op);
      } else {
        assert |o| == 2 && |op| == 1 && o[1] == '=';
        assert s[q..][1] == s[q + 1] != '=';
      }
    }
  }

  /** An item that starts with operator k is read with it, its value read
      from u on. */
  lemma OperatorStart(s: string, p: nat, q: nat, k: nat, u: nat)
    requires k < |Operators| && p <= q && u == q + |Operators[k].0|
    requires At(s, q, Operators[k].0) && SkipSpace(s, p) == q
    requires u < |s| && !OperatorChar(s[u])
    ensures ParseMatch(s, p) == ParseOperatorMatch(s, u, Operators[k].1)
  {
    OperatorFirstAt(s, q, k);
    ParseMatchOperator(s, p, k, u);
  }

  /** A lone value, not followed by '~', is read as the Equal rule on it. */
  lemma ReadsEqualItem(s: string, p: nat, q: nat, a: string, v: Value, e: nat)
    requires BareToken(a) && ClassifyToken(a) == Some(v) && p <= q && e == q + |a|
    requires At(s, q, a) && Blank(s, p, q)
    requires e < |s| && EndsBareToken(s[e]) && SkipSpace(s, e) < |s| && s[SkipSpace(s, e)] != '~'
    ensures ParseMatch(s, p) == Some(Parsed(Rule(Equal, v, VoidValue), e))
  {
    TokenAt(s, p, q, a, e);
    ValueStart(s, p, q);
    ReadsToken(s, q, q, a, v, e);
    ValueMatchEqual(s, q, v, e);
  }

  /** `a ~ b` is read as the Range between their values. */
  lemma ReadsRangeItem(s: string, p: nat, q: nat, a: string, b: string, lo: Value, hi: Value, e1: nat, e2: nat)
    requires BareToken(a) && ClassifyToken(a) == Some(lo)
    requires BareToken(b) && ClassifyToken(b) == Some(hi)
    requires p <= q && e1 == q + |a| && e2 == e1 + 3 + |b|
    requires At(s, q, a + " ~ " + b) && Blank(s, p, q)
    requires e2 == |s| || EndsBareToken(s[e2])
    ensures ParseMatch(s, p) == Some(Parsed(Rule(Range, lo, hi), e2))
  {
    var u, w := e1 + 2, e1 + 3;
    RangeText(s, p, q, a, b, e1, u, w, e2);
    RangeTokens(s, q, a, b, lo, hi, e1, u, w, e2);
    ValueStart(s, p, q);
    ValueMatchRange(s, q, lo, e1, u, hi, e2);
  }

  /** Where the two tokens of `a ~ b` and the '~' between them sit. */
  lemma RangeText(s: string, p: nat, q: nat, a: string, b: string, e1: nat, u: nat, w: nat, e2: nat)
    requires BareToken(a) && BareToken(b)
    requires p <= q && e1 == q + |a| && u == e1 + 2 && w == e1 + 3 && e2 == w + |b|
    requires At(s, q, a + " ~ " + b) && Blank(s, p, q)
    ensures q < |s| && SkipSpace(s, p) == q && !OperatorChar(s[q])
    ensures At(s, q, a) && At(s, w, b) && Blank(s, q, q) && Blank(s, u, w)
    ensures u < |s| && EndsBareToken(s[e1]) && SkipSpace(s, e1) == e1 + 1 && s[e1 + 1] == '~'
  {
    Around(s, q, a, " ~ ", b, e1);
    AtChar(s, q, a, 0);
    SkipSpaceTo(s, p, q);
    SeparatorGlue(s, e1, u, w);
  }

  /** The two tokens of `a ~ b` are read as their values. */
  lemma RangeTokens(s: string, q: nat, a: string, b: string, lo: Value, hi: Value, e1: nat, u: nat, w: nat, e2: nat)
    requires BareToken(a) && ClassifyToken(a) == Some(lo)
    requires BareToken(b) && ClassifyToken(b) == Some(hi)
    requires e1 == q + |a| && u == e1 + 2 && w == u + 1 && e2 == w + |b|
    requires At(s, q, a) && At(s, w, b) && Blank(s, q, q) && Blank(s, u, w)
    requires e1 < |s| && EndsBareToken(s[e1])
    requires e2 == |s| || EndsBareToken(s[e2])
    ensures ParseValue(s, q) == Some(Parsed(lo, e1)) && ParseValue(s, u) == Some(Parsed(hi, e2))
  {
    ReadsToken(s, q, q, a, lo, e1);
    ReadsToken(s, u, w, b, hi, e2);
  }

  /** An operator and a value are read as the rule with that comparison. */
  lemma ReadsOperatorItem(s: string, p: nat, q: nat, k: nat, a: string, v: Value, e: nat)
    requires k < |Operators| && BareToken(a) && ClassifyToken(a) == Some(v)
    requires p <= q && e == q + |Operators[k].0| + |a|
    requires At(s, q, Operators[k].0 + a) && Blank(s, p, q)
    requires e == |s| || EndsBareToken(s[e])
    ensures ParseMatch(s, p) == Some(Parsed(Rule(Operators[k].1, v, VoidValue), e))
  {
    var u := q + |Operators[k].0|;
    OperatorText(s, p, q, k, a, u);
    OperatorStart(s, p, q, k, u);
    ReadsToken(s, u, u, a, v, e);
  }

  /** Where the operator and the value sit. */
  lemma OperatorText(s: string, p: nat, q: nat, k: nat, a: string, u: nat)
    requires k < |Operators| && BareToken(a) && p <= q && u == q + |Operators[k].0|
    requires At(s, q, Operators[k].0 + a) && Blank(s, p, q)
    ensures At(s, q, Operators[k].0) && At(s, u, a) && Blank(s, u, u)
    ensures SkipSpace(s, p) == q && u < |s| && !OperatorChar(s[u])
  {
    var op := Operators[k].0;
    OperatorStarts();
    AtPrefix(s, q, op, a);
    AtSuffix(s, q, op, a);
    AtChar(s, q, op, 0);
    AtChar(s, u, a, 0);
    SkipSpaceTo(s, p, q);
  }

  // ----------------------------------------------------------- integer rules

  /** The rules written here: integer operands that are longs, and an upper
      bound exactly for a range. */
  predicate IntegerRule(r: Rule)
  {
    && r.comp != NoComparison
    && r.lower.IntegerValue? && IsLong(r.lower.i)
    && (r.comp == Range ==> r.upper.IntegerValue? && IsLong(r.upper.i))
    && (r.comp != Range ==> r.upper == VoidValue)
  }

  /** The entry of the operator table that parse_match reads as c. */
  function OperatorIndex(c: Comparison): (k: nat)
    requires c != NoComparison && c != Range
    ensures k < |Operators| && Operators[k].1 == c
  {
    OperatorTableOrder();
    Ordinal(c) - 1
  }

  /** A rule as a configuration line writes it: an Equal rule as its bare
      value, a range as `lo ~ hi`, any other rule as its operator followed
      by its value. */
  function RuleImage(r: Rule): (t: string)
    requires IntegerRule(r)
  {
    match r.comp
    case NoComparison => ""
    case Equal => DecimalImage(r.lower.i)
    case Range => DecimalImage(r.lower.i) + " ~ " + DecimalImage(r.upper.i)
    case NotEqual => Operators[OperatorIndex(r.comp)].0 + DecimalImage(r.lower.i)
    case LessThanEqual => Operators[OperatorIndex(r.comp)].0 + DecimalImage(r.lower.i)
    case GreaterThanEqual => Operators[OperatorIndex(r.comp)].0 + DecimalImage(r.lower.i)
    case LessThan => Operators[OperatorIndex(r.comp)].0 + DecimalImage(r.lower.i)
    case GreaterThan => Operators[OperatorIndex(r.comp)].0 + DecimalImage(r.lower.i)
  }

  /** A rule list written with " | " between the items. */
  function RulesImage(rs: seq<Rule>): (t: string)
    requires 0 < |rs| && forall k :: 0 <= k < |rs| ==> IntegerRule(rs[k])
    decreases |rs|
  {
    if |rs| == 1 then RuleImage(rs[0]) else RuleImage(rs[0]) + " | " + RulesImage(rs[1..])
  }

  /** A written integer rule, followed by white space that leads to
      anything but '~', is read back as itself. */
  lemma ReadsRule(s: string, p: nat, q: nat, r: Rule, e: nat)
    requires IntegerRule(r) && p <= q && e == q + |RuleImage(r)|
    requires At(s, q, RuleImage(r)) && Blank(s, p, q)
    requires e < |s| && IsSpace(s[e]) && SkipSpace(s, e) < |s| && s[SkipSpace(s, e)] != '~'
    ensures ParseMatch(s, p) == Some(Parsed(r, e))
  {
    var a := DecimalImage(r.lower.i);
    IntegerToken(r.lower.i);
    match r.comp
    case Equal =>
      ReadsEqualItem(s, p, q, a, r.lower, e);
    case Range =>
      IntegerToken(r.upper.i);
      ReadsRangeItem(s, p, q, a, DecimalImage(r.upper.i), r.lower, r.upper, q + |a|, e);
    case NoComparison =>
      assert false;
    case NotEqual =>
      ReadsOperatorItem(s, p, q, OperatorIndex(r.comp), a, r.lower, e);
    case LessThanEqual =>
      ReadsOperatorItem(s, p, q, OperatorIndex(r.comp), a, r.lower, e);
    case GreaterThanEqual =>
      ReadsOperatorItem(s, p, q, OperatorIndex(r.comp), a, r.lower, e);
    case LessThan =>
      ReadsOperatorItem(s, p, q, OperatorIndex(r.comp), a, r.lower, e);
    case GreaterThan =>
      ReadsOperatorItem(s, p, q, OperatorIndex(r.comp), a, r.lower, e);
  }

  // ------------------------------------------------------------ rule lists

  /** What a written rule starts with: never white space, an index bracket,
      a quote, a '|' or a '~'. */
  lemma RuleImageStart(r: Rule)
    requires IntegerRule(r)
    ensures |RuleImage(r)| > 0
    ensures var c := RuleImage(r)[0]; !IsSpace(c) && c != '[' && c != '|' && c != '~'
  {
    var d := DecimalImage(r.lower.i);
    if r.lower.i >= 0 {
      assert IsDigit(NatImage(r.lower.i)[0]);
    }
    OperatorStarts();
    match r.comp
    case NoComparison =>
      assert false;
    case Equal =>
    case Range =>
      assert RuleImage(r) == d + (" ~ " + DecimalImage(r.upper.i));
    case NotEqual =>
    case LessThanEqual =>
    case GreaterThanEqual =>
    case LessThan =>
    case GreaterThan =>
  }

  lemma RulesImageStart(rs: seq<Rule>)
    requires 0 < |rs| && forall k :: 0 <= k < |rs| ==> IntegerRule(rs[k])
    ensures |RulesImage(rs)| > 0
    ensures var c := RulesImage(rs)[0]; !IsSpace(c) && c != '[' && c != '|' && c != '~'
  {
    RuleImageStart(rs[0]);
    if |rs| > 1 {
      assert RulesImage(rs) == RuleImage(rs[0]) + (" | " + RulesImage(rs[1..]));
    }
  }

  /** A separator ` |` after a rule: white space that leads to the '|'. */
  lemma BarGlue(s: string, e1: nat, k: nat)
    requires k == e1 + 1 && k < |s| && s[e1] == ' ' && s[k] == '|'
    ensures e1 < |s| && IsSpace(s[e1]) && SkipSpace(s, e1) == k && s[k] != '~'
  {
  }

  /** One space between two positions. */
  lemma SpaceGlue(s: string, p: nat, q: nat)
    requires q == p + 1 && p < |s| && s[p] == ' '
    ensures q <= |s| && Blank(s, p, q)
  {
  }

  /** The last rule of a list, followed by what ends the list. */
  lemma ReadsLastRule(s: string, p: nat, q: nat, acc: seq<Rule>, r: Rule, e: nat)
    requires IntegerRule(r) && |acc| < NUMBER_OF_VARIANT_RANGES
    requires forall k :: 0 <= k < |acc| ==> WellFormedRule(acc[k])
    requires p <= q && e == q + |RuleImage(r)|
    requires At(s, q, RuleImage(r)) && Blank(s, p, q)
    requires e < |s| && IsSpace(s[e]) && SkipSpace(s, e) < |s|
    requires s[SkipSpace(s, e)] != '~' && s[SkipSpace(s, e)] != '|'
    ensures ParseRules(s, p, acc) == Some(Parsed(acc + [r], SkipSpace(s, e)))
  {
    var m := Parsed(r, e);
    ReadsRule(s, p, q, r, e);
    ParseRulesStep(s, p, acc, m);
    RulesAfterEnd(s, p, acc, m, SkipSpace(s, e));
  }

  /** A rule followed by ` | `: the list goes on after the '|'. */
  lemma ReadsRuleThenBar(s: string, p: nat, q: nat, acc: seq<Rule>, r: Rule, e1: nat, next: nat)
    requires IntegerRule(r) && |acc| + 1 < NUMBER_OF_VARIANT_RANGES
    requires forall k :: 0 <= k < |acc| ==> WellFormedRule(acc[k])
    requires p <= q && e1 == q + |RuleImage(r)|
    requires At(s, q, RuleImage(r)) && Blank(s, p, q)
    requires next == e1 + 2 && e1 + 1 < |s| && s[e1] == ' ' && s[e1 + 1] == '|'
    ensures forall k :: 0 <= k < |acc + [r]| ==> WellFormedRule((acc + [r])[k])
    ensures ParseRules(s, p, acc) == ParseRules(s, next, acc + [r])
  {
    var k := e1 + 1;
    var m := Parsed(r, e1);
    BarGlue(s, e1, k);
    ReadsRule(s, p, q, r, e1);
    ParseRulesStep(s, p, acc, m);
    RulesAfterBar(s, p, acc, m, k, next);
  }

  lemma AppendFirst(acc: seq<Rule>, rs: seq<Rule>)
    requires 0 < |rs|
    ensures acc + [rs[0]] + rs[1..] == acc + rs
  {
    assert [rs[0]] + rs[1..] == rs;
    assert acc + [rs[0]] + rs[1..] == acc + ([rs[0]] + rs[1..]);
  }

  /** A written rule list, followed by white space and then by neither '~'
      nor '|', is read back as itself after the rules read before it. */
  lemma {:induction false} ReadsRules(s: string, p: nat, q: nat, acc: seq<Rule>, rs: seq<Rule>, e: nat)
    requires 0 < |rs| && forall k :: 0 <= k < |rs| ==> IntegerRule(rs[k])
    requires |acc| + |rs| <= NUMBER_OF_VARIANT_RANGES
    requires forall k :: 0 <= k < |acc| ==> WellFormedRule(acc[k])
    requires p <= q && e == q + |RulesImage(rs)|
    requires At(s, q, RulesImage(rs)) && Blank(s, p, q)
    requires e < |s| && IsSpace(s[e]) && SkipSpace(s, e) < |s|
    requires s[SkipSpace(s, e)] != '~' && s[SkipSpace(s, e)] != '|'
    ensures ParseRules(s, p, acc) == Some(Parsed(acc + rs, SkipSpace(s, e)))
    decreases |rs|
  {
    var r := rs[0];
    if |rs| == 1 {
      ReadsLastRule(s, p, q, acc, r, e);
      assert rs == [r];
    } else {
      var e1 := q + |RuleImage(r)|;
      var next, w := e1 + 2, e1 + 3;
      RulesText(s, q, rs, e1, next, w, e);
      ReadsRuleThenBar(s, p, q, acc, r, e1, next);
      ReadsRules(s, next, w, acc + [r], rs[1..], e);
      AppendFirst(acc, rs);
    }
  }

  /** Where the first rule, the ` | ` and the rest of a written list sit. */
  lemma RulesText(s: string, q: nat, rs: seq<Rule>, e1: nat, next: nat, w: nat, e: nat)
    requires 1 < |rs| && forall k :: 0 <= k < |rs| ==> IntegerRule(rs[k])
    requires e == q + |RulesImage(rs)| && At(s, q, RulesImage(rs))
    requires e1 == q + |RuleImage(rs[0])| && next == e1 + 2 && w == e1 + 3
    ensures At(s, q, RuleImage(rs[0])) && At(s, w, RulesImage(rs[1..]))
    ensures e1 + 1 < |s| && s[e1] == ' ' && s[e1 + 1] == '|'
    ensures w <= |s| && Blank(s, next, w) && e == w + |RulesImage(rs[1..])|
  {
    var t, rest := RuleImage(rs[0]), RulesImage(rs[1..]);
    Around(s, q, t, " | ", rest, e1);
    SpaceGlue(s, next, w);
  }

  // ---------------------------------------------------------------- lines

  /** A PV name a line can start with: a letter, a digit or '$' first, and
      no white space. */
  predicate PvName(name: string)
  {
    && 0 < |name| && (IsAlnum(name[0]) || name[0] == '$')
    && forall k :: 0 <= k < |name| ==> !IsSpace(name[k])
  }

  /** A one-word command that no match item can take for its own: it does
      not start with '~' or '|'. */
  predicate OneWordCommand(cmd: string)
  {
    && 0 < |cmd| && cmd[0] != '~' && cmd[0] != '|'
    && forall k :: 0 <= k < |cmd| ==> !IsSpace(cmd[k])
  }

  /** The rule lists written here: one to twenty integer rules. */
  predicate IntegerRules(rs: seq<Rule>)
  {
    0 < |rs| <= NUMBER_OF_VARIANT_RANGES && forall k :: 0 <= k < |rs| ==> IntegerRule(rs[k])
  }

  /** The configuration line for an entry of element 1 with a one-word
      command: name, rules and command, one space apart. */
  function LineImage(name: string, rs: seq<Rule>, cmd: string): (s: string)
    requires IntegerRules(rs)
  {
    name + " " + RulesImage(rs) + " " + cmd
  }

  /** A PV name followed by one space, the line going on at j. */
  lemma NameText(s: string, name: string, n: nat, j: nat)
    requires PvName(name) && n == |name| && j == n + 1 && j < |s| && !IsSpace(s[j])
    requires s[..j] == name + " "
    ensures 0 < n <= j < |s| && SkipSpace(s, 0) == 0 && WordEnd(s, 0) == n && SkipSpace(s, n) == j
    ensures (IsAlnum(s[0]) || s[0] == '$') && s[0..n] == name
  {
    assert s[0..n] == s[..j][..n];
    forall k | 0 <= k < n
      ensures !IsSpace(s[k])
    {
      assert s[k] == s[..j][k] == name[k];
    }
    assert s[n] == s[..j][n] == ' ';
    assert s[0] == name[0];
    WordEndAt(s, 0, n);
    SkipSpaceTo(s, 0, 0);
    SkipSpaceTo(s, n, j);
  }

  /** Rules t from i to e, one space, and a one-word command from c to the
      end of the line. */
  lemma TailText(s: string, t: string, cmd: string, i: nat, e: nat, c: nat)
    requires OneWordCommand(cmd) && 0 < |t| && !IsSpace(t[0])
    requires i <= |s| && s[i..] == t + " " + cmd && e == i + |t| && c == e + 1
    ensures i < |s| && s[i] == t[0] && At(s, i, t) && Blank(s, i, i)
    ensures e < |s| && IsSpace(s[e]) && SkipSpace(s, e) == c
    ensures c < |s| && !IsSpace(s[c]) && s[c] != '~' && s[c] != '|' && s[c..] == cmd
  {
    assert s[i..e] == s[i..][..|t|] == t;
    assert s[e] == s[i..][|t|] == ' ';
    assert s[c..] == s[i..][|t| + 1..] == cmd;
    assert s[i] == s[i..][0] == t[0];
    assert s[c] == cmd[0];
    SkipSpaceTo(s, e, c);
  }

  /** Where the name, the rules and the command of a line sit: s is
      name + " " + t + " " + cmd, t starting at j and ending at e, the
      command starting at c. */
  lemma LineText(s: string, name: string, t: string, cmd: string, n: nat, j: nat, e: nat, c: nat)
    requires PvName(name) && OneWordCommand(cmd) && 0 < |t| && !IsSpace(t[0])
    requires s == name + " " + t + " " + cmd
    requires n == |name| && j == n + 1 && e == j + |t| && c == e + 1
    ensures 0 < n <= j < |s| && SkipSpace(s, 0) == 0 && WordEnd(s, 0) == n && SkipSpace(s, n) == j
    ensures (IsAlnum(s[0]) || s[0] == '$') && s[0..n] == name && s[j] == t[0]
    ensures At(s, j, t) && Blank(s, j, j)
    ensures e < |s| && IsSpace(s[e]) && SkipSpace(s, e) == c
    ensures c < |s| && !IsSpace(s[c]) && s[c] != '~' && s[c] != '|' && s[c..] == cmd
  {
    assert s[..j] == name + " ";
    assert s[j..] == t + " " + cmd;
    TailText(s, t, cmd, j, e, c);
    NameText(s, name, n, j);
  }

  /** A one-word command that ends the line gets the default parameters. */
  lemma LineCommand(s: string, c: nat, cmd: string)
    requires OneWordCommand(cmd) && c < |s| && s[c..] == cmd
    ensures !IsSpace(s[c]) && CommandText(s, c) == cmd + DEFAULT_PARAMETERS
  {
    assert s[|s| - 1] == cmd[|cmd| - 1];
    assert TrimEnd(s) == |s|;
    forall k | c <= k < |s|
      ensures !IsSpace(s[k])
    {
      assert s[k] == cmd[k - c];
    }
    assert s[c] == cmd[0];
    assert OneWord(s, c);
    CommandParameters(s, c);
    assert s[c..TrimEnd(s)] == cmd;
  }

  /** parse_line reads the line written for an entry back as that entry:
      its name, element 1, its rules, and its command with the default
      parameters appended. */
  lemma AcceptsLine(name: string, rs: seq<Rule>, cmd: string)
    requires PvName(name) && IntegerRules(rs) && OneWordCommand(cmd)
    ensures ParseLine(LineImage(name, rs, cmd)) == Some(Entry(name, 1, rs, cmd + DEFAULT_PARAMETERS))
  {
    var t := RulesImage(rs);
    var s := LineImage(name, rs, cmd);
    var n := |name|;
    var j := n + 1;
    var e := j + |t|;
    var c := e + 1;
    RulesImageStart(rs);
    LineText(s, name, t, cmd, n, j, e, c);
    assert ParseIndex(s, j) == Some(Parsed(1, j));
    ReadsRules(s, j, j, [], rs, e);
    assert [] + rs == rs;
    ParseAfterNameReads(s, j, name, 1, j, rs, c);
    LineCommand(s, c, cmd);
    ParseLineReadsName(s, 0, n, j);
  }

  /** The next c from p on is at e. */
  lemma {:induction false} NextCharAt(s: string, p: nat, e: nat, c: char)
    requires p <= e < |s| && s[e] == c
    requires forall j :: p <= j < e ==> s[j] != c
    ensures NextChar(s, p, c) == e
    decreases e - p
  {
    if p < e {
      NextCharAt(s, p + 1, e, c);
    }
  }

  /** The line for an entry of a later array element: the element number
      in brackets after the name. */
  function IndexedLineImage(name: string, index: int, rs: seq<Rule>, cmd: string): (s: string)
    requires IntegerRules(rs)
  {
    name + " " + ("[" + DecimalImage(index) + "] " + (RulesImage(rs) + " " + cmd))
  }

  /** Where the parts of an indexed line sit: the '[' at j, the digits d
      up to the ']' at close, the rules t from i to e and the command from
      c. */
  lemma IndexedLineText(s: string, name: string, d: string, t: string, cmd: string,
                        n: nat, j: nat, close: nat, i: nat, e: nat, c: nat)
    requires PvName(name) && OneWordCommand(cmd) && 0 < |t| && !IsSpace(t[0])
    requires 0 < |d| && forall k :: 0 <= k < |d| ==> IsDigit(d[k])
    requires s == name + " " + ("[" + d + "] " + (t + " " + cmd))
    requires n == |name| && j == n + 1 && close == j + 1 + |d| && i == close + 2
    requires e == i + |t| && c == e + 1
    ensures 0 < n <= j < |s| && SkipSpace(s, 0) == 0 && WordEnd(s, 0) == n && SkipSpace(s, n) == j
    ensures (IsAlnum(s[0]) || s[0] == '$') && s[0..n] == name && s[j] == '[' && !IsSpace(s[j])
    ensures close < |s| && NextChar(s, j + 1, ']') == close && s[j + 1..close] == d
    ensures i < |s| && SkipSpace(s, close + 1) == i
    ensures At(s, i, t) && Blank(s, i, i)
    ensures e < |s| && IsSpace(s[e]) && SkipSpace(s, e) == c
    ensures c < |s| && !IsSpace(s[c]) && s[c] != '~' && s[c] != '|' && s[c..] == cmd
  {
    var rest := "[" + d + "] " + (t + " " + cmd);
    assert s[..j] == name + " ";
    assert s[j..] == rest;
    assert s[i..] == rest[|d| + 3..] == t + " " + cmd;
    assert s[j..j + |d| + 3] == rest[..|d| + 3];
    TailText(s, t, cmd, i, e, c);
    BracketText(s, j, d, close, i);
    NameText(s, name, n, j);
  }

  /** "[" + d + "] " at j, the line going on at i. */
  lemma BracketText(s: string, j: nat, d: string, close: nat, i: nat)
    requires forall k :: 0 <= k < |d| ==> IsDigit(d[k])
    requires j + |d| + 3 <= |s| && s[j..j + |d| + 3] == "[" + d + "] "
    requires close == j + 1 + |d| && i == close + 2 && i < |s| && !IsSpace(s[i])
    ensures s[j] == '[' && !IsSpace(s[j])
    ensures close < |s| && NextChar(s, j + 1, ']') == close && s[j + 1..close] == d
    ensures SkipSpace(s, close + 1) == i
  {
    var b := "[" + d + "] ";
    assert s[j] == b[0] == '[';
    assert s[close] == b[|d| + 1] == ']';
    assert s[close + 1] == b[|d| + 2] == ' ';
    assert s[j + 1..close] == b[1..|d| + 1] == d;
    forall k | j + 1 <= k < close
      ensures s[k] != ']'
    {
      assert s[k] == d[k - (j + 1)];
    }
    NextCharAt(s, j + 1, close, ']');
    SkipSpaceTo(s, close + 1, i);
  }

  /** A bracketed element number that long_value reads, that fits an int
      and is at least 1, is the index read, the rules starting after it. */
  lemma ReadsIndex(s: string, j: nat, close: nat, i: nat, d: string, index: int)
    requires j < |s| && s[j] == '[' && !IsSpace(s[j])
    requires j < close < |s| && NextChar(s, j + 1, ']') == close && s[j + 1..close] == d
    requires |d| <= 20 && LongValue(d) == Scanned(index, true) && IsInt(index) && index >= 1
    requires i < |s| && SkipSpace(s, close + 1) == i
    ensures ParseIndex(s, j) == Some(Parsed(index, i))
  {
    assert IndexText(s, j) == d;
  }

  /** parse_line reads the line written for an entry of element `index`
      back as that entry. */
  lemma AcceptsIndexedLine(name: string, index: int, rs: seq<Rule>, cmd: string)
    requires PvName(name) && IntegerRules(rs) && OneWordCommand(cmd)
    requires 1 <= index && IsInt(index)
    ensures ParseLine(IndexedLineImage(name, index, rs, cmd)) == Some(Entry(name, index, rs, cmd + DEFAULT_PARAMETERS))
  {
    var d := DecimalImage(index);
    var t := RulesImage(rs);
    var s := IndexedLineImage(name, index, rs, cmd);
    var n := |name|;
    var j := n + 1;
    var close := j + 1 + |d|;
    var i := close + 2;
    var e := i + |t|;
    var c := e + 1;
    assert IsLong(index);
    DecimalImageLength(index);
    LongValueReadsDecimalImage(index);
    RulesImageStart(rs);
    IndexedLineText(s, name, d, t, cmd, n, j, close, i, e, c);
    ReadsIndex(s, j, close, i, d, index);
    ReadsRules(s, i, i, [], rs, e);
    assert [] + rs == rs;
    ParseAfterNameReads(s, j, name, index, i, rs, c);
    LineCommand(s, c, cmd);
    ParseLineReadsName(s, 0, n, j);
  }
}
