/** The match engine of the newer revision (krytenApp/filter.c): each update
    is classified as matching or not by the first rule it satisfies, and the
    user's command is rendered and launched only when that classification
    changes. The six variant relations are a parameter; the launcher is an
    `Effect` value rather than a call to system (). */
module Filter {
  import opened Optional
  import opened CStrings
  import opened Numbers
  import opened Variants
  import opened Rules

  const VALUE_IMAGE_SIZE: nat := 44
  const STATE_IMAGE_SIZE: nat := 12
  const INDEX_IMAGE_SIZE: nat := 10
  const COMMAND_BUFFER_SIZE: nat :=
    MATCH_COMMAND_LENGTH + MAXIMUM_PVNAME_SIZE + STATE_IMAGE_SIZE + VALUE_IMAGE_SIZE + INDEX_IMAGE_SIZE + 12

  /** The state texts handed to %m: entering the matched state (with a
      trailing space), leaving it, and losing the connection. */
  const MATCH_STATE: string := "match "
  const REJECT_STATE: string := "reject"
  const DISCONNECT_STATE: string := "disconnect"

  // ------------------------------------------------------------- matching

  /** is_value_a_match: the update is the left operand of each relation and
      the rule's lower value the right one; a range is closed at both ends.
      (krytenApp/filter.c:100-140) */
  function IsValueAMatch(rel: Relations, v: Value, r: Rule): (m: bool)
    ensures r.comp == NoComparison ==> !m
  {
    match r.comp
    case Range => rel.le(r.lower, v) && rel.le(v, r.upper)
    case Equal => rel.eq(v, r.lower)
    case NotEqual => rel.ne(v, r.lower)
    case LessThan => rel.lt(v, r.lower)
    case LessThanEqual => rel.le(v, r.lower)
    case GreaterThan => rel.gt(v, r.lower)
    case GreaterThanEqual => rel.ge(v, r.lower)
    case NoComparison => false
  }

  /** The rule loop of Process_PV_Update: the first rule at or after `from`
      that the value matches, the loop stopping there.
      (krytenApp/filter.c:153-165) */
  function FirstMatch(rel: Relations, v: Value, rules: seq<Rule>, from: nat): (r: Option<nat>)
    requires from <= |rules|
    ensures r.Some? ==> from <= r.value < |rules| && IsValueAMatch(rel, v, rules[r.value])
    ensures r.Some? ==> forall j :: from <= j < r.value ==> !IsValueAMatch(rel, v, rules[j])
    ensures r.None? ==> forall j :: from <= j < |rules| ==> !IsValueAMatch(rel, v, rules[j])
    decreases |rules| - from
  {
    if from == |rules| then None
    else if IsValueAMatch(rel, v, rules[from]) then Some(from)
    else FirstMatch(rel, v, rules, from + 1)
  }

  /** The classification of an update: some rule matches. */
  predicate Matches(rel: Relations, v: Value, rules: seq<Rule>)
  {
    FirstMatch(rel, v, rules, 0).Some?
  }

  // ------------------------------------------------------------ rendering

  /** q_val_image: the value in single quotes, in a 44-byte buffer. */
  function QuotedValue(valueImage: string): (q: string)
    ensures |q| <= VALUE_IMAGE_SIZE - 1
    ensures |valueImage| <= VALUE_IMAGE_SIZE - 3 ==> q == "'" + valueImage + "'"
    ensures q <= "'" + valueImage + "'"
  {
    Truncate("'" + valueImage + "'", VALUE_IMAGE_SIZE - 1)
  }

  /** index_image: "%d" of the element index in a 10-byte buffer, so an index
      of 10^9 or more loses its last digits. */
  function IndexImage(index: int): (s: string)
    ensures |s| <= INDEX_IMAGE_SIZE - 1
    ensures s <= DecimalImage(index)
    ensures 0 <= index < 1_000_000_000 ==> s == DecimalImage(index)
  {
    IntImageLengthIfSmall(index);
    Truncate(DecimalImage(index), INDEX_IMAGE_SIZE - 1)
  }

  lemma IntImageLengthIfSmall(index: int)
    ensures 0 <= index < 1_000_000_000 ==> |DecimalImage(index)| <= INDEX_IMAGE_SIZE - 1
  {
    if 0 <= index < 1_000_000_000 {
      IntImageLength(index);
    }
  }

  /** The four substitution passes of call_command, flip-flopping between
      two buffers of COMMAND_BUFFER_SIZE bytes: %p, then %e, then %m, and the
      value last. (krytenApp/filter.c:58-70) */
  function Render(command: string, pvName: string, index: int, state: string, valueImage: string): (r: string)
    ensures |r| <= COMMAND_BUFFER_SIZE - 1
  {
    var d1 := Substitute(COMMAND_BUFFER_SIZE, command, "%p", pvName);
    var c1 := Substitute(COMMAND_BUFFER_SIZE, d1, "%e", IndexImage(index));
    var d2 := Substitute(COMMAND_BUFFER_SIZE, c1, "%m", state);
    var r := Substitute(COMMAND_BUFFER_SIZE, d2, "%v", QuotedValue(valueImage));
    SubstituteIsBoundedReplaceAll(COMMAND_BUFFER_SIZE, d2, "%v", QuotedValue(valueImage));
    r
  }

  /** The same passes without any buffer limit. */
  function Unbounded(command: string, pvName: string, index: int, state: string, valueImage: string): string
  {
    var p := Replaced(command, "%p", pvName);
    var e := Replaced(p, "%e", IndexImage(index));
    var m := Replaced(e, "%m", state);
    Replaced(m, "%v", QuotedValue(valueImage))
  }

  /** When no pass overflows the buffer, the rendered command is exactly the
      chain of unbounded replace-alls. */
  lemma RenderIsReplaceChain(command: string, pvName: string, index: int, state: string, valueImage: string)
    requires |Replaced(command, "%p", pvName)| < COMMAND_BUFFER_SIZE
    requires |Replaced(Replaced(command, "%p", pvName), "%e", IndexImage(index))| < COMMAND_BUFFER_SIZE
    requires |Replaced(Replaced(Replaced(command, "%p", pvName), "%e", IndexImage(index)), "%m", state)| < COMMAND_BUFFER_SIZE
    requires |Unbounded(command, pvName, index, state, valueImage)| < COMMAND_BUFFER_SIZE
    ensures Render(command, pvName, index, state, valueImage) == Unbounded(command, pvName, index, state, valueImage)
  {
    var n := COMMAND_BUFFER_SIZE;
    var p := Replaced(command, "%p", pvName);
    var e := Replaced(p, "%e", IndexImage(index));
    var m := Replaced(e, "%m", state);
    SubstituteIsBoundedReplaceAll(n, command, "%p", pvName);
    SubstituteIsBoundedReplaceAll(n, p, "%e", IndexImage(index));
    SubstituteIsBoundedReplaceAll(n, e, "%m", state);
    SubstituteIsBoundedReplaceAll(n, m, "%v", QuotedValue(valueImage));
  }

  /** The value is substituted last, so its text reaches the command as it
      is even when it contains %p, %e or %m. */
  lemma ValueTextNotRescanned(pvName: string, index: int, state: string, valueImage: string)
    ensures Render("%v", pvName, index, state, valueImage) == QuotedValue(valueImage)
  {
    var n := COMMAND_BUFFER_SIZE;
    var t := "%v";
    NoPlaceholder(t, "%p");
    NoPlaceholder(t, "%e");
    NoPlaceholder(t, "%m");
    SubstituteWithoutOccurrence(n, t, "%p", pvName);
    SubstituteWithoutOccurrence(n, t, "%e", IndexImage(index));
    SubstituteWithoutOccurrence(n, t, "%m", state);
    SubstituteIsBoundedReplaceAll(n, t, "%v", QuotedValue(valueImage));
    ReplacementNotRescanned("%v", QuotedValue(valueImage), "");
    assert "%v" + "" == t;
  }

  /** "%v" contains no other placeholder. */
  lemma NoPlaceholder(t: string, find: string)
    requires t == "%v" && |find| == 2 && find[1] != 'v'
    ensures forall k :: 0 <= k <= |t| ==> !OccursAt(t, find, k)
  {
    forall k | 0 <= k <= |t|
      ensures !OccursAt(t, find, k)
    {
      if k == 0 {
        assert t[0..2][1] == 'v';
      }
    }
  }

  // ------------------------------------------------------ the built-in quit

  /** What call_command does with the rendered text. */
  datatype Effect =
    | RunCommand(command: string)   // handed to system ()
    | QuitProgram(exitCode: int)    // quit_invoked set, exit_code recorded
    | NoEffect                      // "quit " outside the match state

  /** The built-in check of call_command: a command beginning "quit " quits
      with the atoi of the rest, but only when the state begins "match", and
      does nothing otherwise; any other command goes to system ().
      (krytenApp/filter.c:74-94) */
  function CallCommand(command: string, state: string): (e: Effect)
    ensures e.RunCommand? <==> !("quit " <= command)
    ensures e.RunCommand? ==> e.command == command
    ensures e.QuitProgram? <==> "quit " <= command && "match" <= state
    ensures e.QuitProgram? ==> e.exitCode == Atoi(command[5..]) && IsInt(e.exitCode)
  {
    if "quit " <= command then
      if "match" <= state then QuitProgram(Atoi(command[5..])) else NoEffect
    else RunCommand(command)
  }

  /** The prefix test above is the strncmp (command, "quit ", 5) == 0 of the
      source, and likewise for the state. */
  lemma PrefixIsStrNCmp(s: string, prefix: string)
    ensures StrNCmp(s, prefix, |prefix|) == 0 <==> prefix <= s
  {
    assert Truncate(prefix, |prefix|) == prefix;
    if prefix <= s {
      assert Truncate(s, |prefix|) == s[..|prefix|];
    }
  }

  /** `quit <n>` in the match state ends the program with exit code n. */
  lemma QuitCarriesExitCode(n: int, state: string)
    requires IsInt(n) && "match" <= state
    ensures CallCommand("quit " + DecimalImage(n), state) == QuitProgram(n)
  {
    var c := "quit " + DecimalImage(n);
    assert "quit " <= c;
    assert c[5..] == DecimalImage(n);
    LongValueReadsDecimalImage(n);
  }

  // --------------------------------------------------------------- updates

  /** One call of call_command: the state and value texts and the effect. */
  datatype Call = Call(state: string, valueImage: string, effect: Effect)

  /** A call of call_command, if any, and the new last_update_matched. */
  datatype Outcome = Outcome(call: Option<Call>, lastMatched: bool)

  /** Only the match state text begins with "match". */
  lemma StateTexts()
    ensures "match" <= MATCH_STATE
    ensures !("match" <= REJECT_STATE) && !("match" <= DISCONNECT_STATE)
  {
    assert REJECT_STATE[0] != 'm' && DISCONNECT_STATE[0] != 'm';
  }

  /** The effect call_command has for an entry: the command line rendered
      from the entry's template with these texts, run or quit on. */
  function Fire(e: Entry, state: string, valueImage: string): (c: Call)
    ensures c.state == state && c.valueImage == valueImage
    ensures c.effect == CallCommand(Render(e.command, e.pvName, e.index, state, valueImage), state)
    ensures c.effect.QuitProgram? ==> "match" <= state
  {
    Call(state, valueImage, CallCommand(Render(e.command, e.pvName, e.index, state, valueImage), state))
  }

  /** Process_PV_Update: a command is issued exactly when the classification
      differs from the one remembered, with "match " on entering and "reject"
      on leaving, and the classification is remembered in either case.
      (krytenApp/filter.c:144-181) */
  function ProcessUpdate(rel: Relations, floatText: (FloatStyle, Double) -> string,
                         e: Entry, data: Value, last: bool): (o: Outcome)
    ensures o.lastMatched <==> exists j :: 0 <= j < |e.rules| && IsValueAMatch(rel, data, e.rules[j])
    ensures o.call.Some? <==> o.lastMatched != last
    ensures o.call.Some? ==> o.call.value.state == (if o.lastMatched then MATCH_STATE else REJECT_STATE)
    ensures o.call.Some? ==> o.call.value.valueImage == Image(data, VALUE_IMAGE_SIZE, floatText).text
    ensures o.call.Some? ==> o.call.value.valueImage <= FullImage(data, floatText).GetOr("")
    ensures o.call.Some? ==>
              o.call.value.effect ==
              CallCommand(Render(e.command, e.pvName, e.index, o.call.value.state, o.call.value.valueImage),
                          o.call.value.state)
    ensures o.call.Some? && o.call.value.effect.QuitProgram? ==> o.lastMatched
  {
    StateTexts();
    var matches := Matches(rel, data, e.rules);
    if matches != last then
      var state := if matches then MATCH_STATE else REJECT_STATE;
      var image := Image(data, VALUE_IMAGE_SIZE, floatText).text;
      Outcome(Some(Fire(e, state, image)), matches)
    else Outcome(None, matches)
  }

  /** Process_PV_Disconnect: the command is always issued, with state
      "disconnect" and an empty value; it never quits, and the remembered
      classification is left alone. (krytenApp/filter.c:186-189) */
  function ProcessDisconnect(e: Entry, last: bool): (o: Outcome)
    ensures o.lastMatched == last
    ensures o.call.Some? && o.call.value.state == DISCONNECT_STATE && o.call.value.valueImage == ""
    ensures o.call.value.effect == CallCommand(Render(e.command, e.pvName, e.index, DISCONNECT_STATE, ""), DISCONNECT_STATE)
    ensures !o.call.value.effect.QuitProgram?
  {
    StateTexts();
    Outcome(Some(Fire(e, DISCONNECT_STATE, "")), last)
  }

  // ---------------------------------------------------------------- traces

  /** The calls made over a sequence of updates, starting from `last`. */
  function Run(rel: Relations, floatText: (FloatStyle, Double) -> string,
               e: Entry, updates: seq<Value>, last: bool): seq<Call>
    decreases |updates|
  {
    if |updates| == 0 then []
    else
      var o := ProcessUpdate(rel, floatText, e, updates[0], last);
      (if o.call.Some? then [o.call.value] else []) + Run(rel, floatText, e, updates[1..], o.lastMatched)
  }

  /** How many times a sequence of classifications differs from the one
      before it, the first compared with `last`. */
  function Changes(last: bool, cs: seq<bool>): nat
    decreases |cs|
  {
    if |cs| == 0 then 0
    else (if cs[0] != last then 1 else 0) + Changes(cs[0], cs[1..])
  }

  /** The classifications of a sequence of updates. */
  function Classes(rel: Relations, e: Entry, updates: seq<Value>): (cs: seq<bool>)
    ensures |cs| == |updates|
    ensures forall k :: 0 <= k < |cs| ==> (cs[k] <==> Matches(rel, updates[k], e.rules))
  {
    seq(|updates|, k requires 0 <= k < |updates| => Matches(rel, updates[k], e.rules))
  }

  /** Over any sequence of updates the engine calls the command once per
      change of classification and never otherwise. */
  lemma {:induction false} RunFiresOnChanges(rel: Relations, floatText: (FloatStyle, Double) -> string,
                                             e: Entry, updates: seq<Value>, last: bool)
    ensures |Run(rel, floatText, e, updates, last)| == Changes(last, Classes(rel, e, updates))
    decreases |updates|
  {
    if |updates| > 0 {
      var o := ProcessUpdate(rel, floatText, e, updates[0], last);
      RunFiresOnChanges(rel, floatText, e, updates[1..], o.lastMatched);
      assert Classes(rel, e, updates)[1..] == Classes(rel, e, updates[1..]);
    }
  }

  /** The calls alternate between entering and leaving the matched state,
      the first one entering it exactly when the start state is not
      matched. */
  lemma {:induction false} RunAlternates(rel: Relations, floatText: (FloatStyle, Double) -> string,
                                         e: Entry, updates: seq<Value>, last: bool)
    ensures var r := Run(rel, floatText, e, updates, last);
      && (|r| > 0 ==> r[0].state == (if last then REJECT_STATE else MATCH_STATE))
      && forall k :: 0 <= k < |r| - 1 ==> r[k].state != r[k + 1].state
    decreases |updates|
  {
    if |updates| > 0 {
      var o := ProcessUpdate(rel, floatText, e, updates[0], last);
      RunAlternates(rel, floatText, e, updates[1..], o.lastMatched);
      var rest := Run(rel, floatText, e, updates[1..], o.lastMatched);
      if o.call.Some? {
        assert Run(rel, floatText, e, updates, last) == [o.call.value] + rest;
        ConsAlternates(o.call.value, rest);
      } else {
        assert Run(rel, floatText, e, updates, last) == [] + rest;
      }
    }
  }

  lemma ConsAlternates(c: Call, rest: seq<Call>)
    requires |rest| > 0 ==> rest[0].state != c.state
    requires forall k :: 0 <= k < |rest| - 1 ==> rest[k].state != rest[k + 1].state
    ensures forall k :: 0 <= k < |[c] + rest| - 1 ==> ([c] + rest)[k].state != ([c] + rest)[k + 1].state
  {
    var r := [c] + rest;
    forall k | 0 <= k < |r| - 1
      ensures r[k].state != r[k + 1].state
    {
      if k > 0 {
        assert r[k] == rest[k - 1] && r[k + 1] == rest[k];
      }
    }
  }

  /** A client starts not matched, so a first update that matches nothing
      issues no command. */
  lemma {:induction false} FreshClientIsSilentUntilMatch(rel: Relations, floatText: (FloatStyle, Double) -> string,
                                                       e: Entry, updates: seq<Value>)
    requires forall k :: 0 <= k < |updates| ==> !Matches(rel, updates[k], e.rules)
    ensures Run(rel, floatText, e, updates, false) == []
    decreases |updates|
  {
    if |updates| > 0 {
      FreshClientIsSilentUntilMatch(rel, floatText, e, updates[1..]);
    }
  }
}
