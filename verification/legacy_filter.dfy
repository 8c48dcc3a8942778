/** The match engine of the 2012 revision (kryten/filter.c): a value matches
    an entry when it lies in one of its closed ranges under Varient_Le, and
    the command line handed to system () is built with a single snprintf
    rather than by placeholder substitution. */
module LegacyFilter {
  import opened Optional
  import opened CStrings
  import opened Numbers
  import opened Variants
  import opened LegacyConfig
  import Rules
  import Filter

  const VALUE_IMAGE_SIZE: nat := 44
  const STATE_IMAGE_SIZE: nat := 12
  const INDEX_IMAGE_SIZE: nat := 8
  /** sizeof (match_command) + sizeof (pv_name) + the image sizes + 12. */
  const COMMAND_BUFFER_SIZE: nat :=
    (Rules.MATCH_COMMAND_LENGTH + 1) + Rules.MAXIMUM_PVNAME_SIZE + STATE_IMAGE_SIZE + VALUE_IMAGE_SIZE + INDEX_IMAGE_SIZE + 12

  const ENTRY_STATE: string := "entry"
  const EXIT_STATE: string := "exit "
  const DISCONNECT_STATE: string := "disconnect"

  /** check_in_range: lower <= value <= upper under Varient_Le.
      (kryten/filter.c:45-50) */
  predicate CheckInRange(v: Value, r: Range)
  {
    Le(r.lower, v) && Le(v, r.upper)
  }

  /** The first range at or after `from` that holds the value.
      (kryten/filter.c:87-99) */
  function FirstInRange(v: Value, ranges: seq<Range>, from: nat): (r: Option<nat>)
    requires from <= |ranges|
    ensures r.Some? ==> from <= r.value < |ranges| && CheckInRange(v, ranges[r.value])
    ensures r.Some? ==> forall j :: from <= j < r.value ==> !CheckInRange(v, ranges[j])
    ensures r.None? ==> forall j :: from <= j < |ranges| ==> !CheckInRange(v, ranges[j])
    decreases |ranges| - from
  {
    if from == |ranges| then None
    else if CheckInRange(v, ranges[from]) then Some(from)
    else FirstInRange(v, ranges, from + 1)
  }

  /** The untruncated text of "%s %s '%s' '%s' %d &". */
  function Format(command: string, pvName: string, state: string, valueImage: string, index: int): string
  {
    command + " " + pvName + " '" + state + "' '" + valueImage + "' " + DecimalImage(index) + " &"
  }

  /** call_command: the snprintf into the command buffer.
      (kryten/filter.c:54-73) */
  function Render(command: string, pvName: string, state: string, valueImage: string, index: int): (r: string)
    ensures |r| <= COMMAND_BUFFER_SIZE - 1
    ensures r <= Format(command, pvName, state, valueImage, index)
  {
    Truncate(Format(command, pvName, state, valueImage, index), COMMAND_BUFFER_SIZE - 1)
  }

  /** The buffer is large enough for every command the engine can build: a
      stored command and name, a state text that fits its 12 bytes, a value
      image that fits its 44 and any int index. */
  lemma RenderNeverTruncates(command: string, pvName: string, state: string, valueImage: string, index: int)
    requires |command| <= Rules.MATCH_COMMAND_LENGTH && |pvName| <= Rules.MAXIMUM_PVNAME_SIZE
    requires |state| < STATE_IMAGE_SIZE && |valueImage| < VALUE_IMAGE_SIZE && IsInt(index)
    ensures Render(command, pvName, state, valueImage, index) == Format(command, pvName, state, valueImage, index)
  {
    IntImageLength(index);
  }

  /** A command, if one is issued, and the new last_update_matched. */
  datatype LegacyOutcome = LegacyOutcome(command: Option<string>, lastMatched: bool)

  /** Process_PV_Update of the older revision: a command is issued exactly
      when the classification changes, with "entry" on entering and "exit "
      on leaving, and the classification is remembered.
      (kryten/filter.c:78-115) */
  function ProcessUpdate(floatText: (FloatStyle, Double) -> string,
                         e: LegacyEntry, data: Value, last: bool): (o: LegacyOutcome)
    ensures o.lastMatched <==> exists j :: 0 <= j < |e.ranges| && CheckInRange(data, e.ranges[j])
    ensures o.command.Some? <==> o.lastMatched != last
    ensures o.command.Some? ==> o.command.value == Render(e.command, e.pvName,
              if o.lastMatched then ENTRY_STATE else EXIT_STATE,
              Image(data, VALUE_IMAGE_SIZE, floatText).text, e.index)
  {
    var matches := FirstInRange(data, e.ranges, 0).Some?;
    if matches != last then
      var state := if matches then ENTRY_STATE else EXIT_STATE;
      LegacyOutcome(Some(Render(e.command, e.pvName, state, Image(data, VALUE_IMAGE_SIZE, floatText).text, e.index)), matches)
    else LegacyOutcome(None, matches)
  }

  /** Process_PV_Disconnect: always a command, state "disconnect", empty
      value, classification unchanged. (kryten/filter.c:120-123) */
  function ProcessDisconnect(e: LegacyEntry, last: bool): (o: LegacyOutcome)
    ensures o.lastMatched == last
    ensures o.command == Some(Render(e.command, e.pvName, DISCONNECT_STATE, "", e.index))
  {
    LegacyOutcome(Some(Render(e.command, e.pvName, DISCONNECT_STATE, "", e.index)), last)
  }

  // ------------------------------------------------- across the revisions

  /** An older range as a newer Range rule. */
  function AsRule(r: Range): (q: Rules.Rule)
    ensures q.comp == Rules.Range && q.lower == r.lower && q.upper == r.upper
  {
    Rules.Rule(Rules.Range, r.lower, r.upper)
  }

  function AsRules(ranges: seq<Range>): (q: seq<Rules.Rule>)
    ensures |q| == |ranges|
    ensures forall k :: 0 <= k < |q| ==> q[k] == AsRule(ranges[k])
  {
    seq(|ranges|, k requires 0 <= k < |ranges| => AsRule(ranges[k]))
  }

  /** With Varient_Le as the `le` relation, a newer Range rule is exactly an
      older range check. */
  lemma RangeRuleIsCheckInRange(rel: Relations, v: Value, r: Range)
    requires forall a, b :: rel.le(a, b) == Le(a, b)
    ensures Filter.IsValueAMatch(rel, v, AsRule(r)) == CheckInRange(v, r)
  {
  }

  /** Under that reading both engines classify every update alike and so
      issue their commands on the same updates. */
  lemma EnginesAgree(rel: Relations, floatText: (FloatStyle, Double) -> string,
                     e: LegacyEntry, data: Value, last: bool)
    requires forall a, b :: rel.le(a, b) == Le(a, b)
    ensures var n := Filter.ProcessUpdate(rel, floatText, Rules.Entry(e.pvName, e.index, AsRules(e.ranges), e.command), data, last);
            var o := ProcessUpdate(floatText, e, data, last);
            n.lastMatched == o.lastMatched && (n.call.Some? <==> o.command.Some?)
  {
    var rules := AsRules(e.ranges);
    forall j | 0 <= j < |e.ranges|
      ensures Filter.IsValueAMatch(rel, data, rules[j]) == CheckInRange(data, e.ranges[j])
    {
      RangeRuleIsCheckInRange(rel, data, e.ranges[j]);
    }
  }

  /** The older reader turns a lone value into the range [value, value],
      which is looser than the newer Equal: the quoted "5" admits the
      integer 5 though Varient_Same tells them apart. */
  lemma LoneValueIsLooserThanSame()
    ensures CheckInRange(IntegerValue(5), Range(StringValue("5"), StringValue("5")))
    ensures !Same(IntegerValue(5), StringValue("5"))
  {
    LeIsNotSame();
  }
}
