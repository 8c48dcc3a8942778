/** The decisions the newer revision's Channel Access client makes around
    the match engine (krytenApp/pv_client.c): what to subscribe for, which
    element of an update to read and how to decode it, which callbacks to
    trust, and what a new client looks like. Channel Access itself is not
    modelled: channel ids are numbers, the user data registered with a
    channel is a parameter, and every CA call is taken to succeed. */
module Channel {
  import opened Optional
  import opened CStrings
  import opened Numbers
  import opened Variants
  import opened Rules
  import Filter

  const CA_CLIENT_MAGIC: int := 0xEB1C5314
  /** MAX_ENUM_STATES of EPICS db_access.h: the enumeration table size. */
  const MAX_ENUM_STATES: nat := 16
  const SHORT_MODULUS: int := 0x1_0000

  // --------------------------------------------------------- request types

  /** The DBR request types: a field type with no metadata, status, time,
      graphic or control metadata. */
  datatype Meta = Plain | Sts | Time | Gr | Ctrl
  datatype Field = FString | FShort | FFloat | FEnum | FChar | FLong | FDouble
  datatype DbrType = Dbr(meta: Meta, field: Field)

  /** The initial get and the subscription of Subscribe_Channel, with the
      element count both request. */
  datatype Subscription = Subscription(initial: DbrType, update: DbrType, count: nat)

  /** C's conversion of a non-negative element count to unsigned long is
      the identity; an int index is converted modulo 2^64. */
  function AsUnsignedLong(i: int): (u: nat)
    requires IsInt(i)
    ensures i >= 0 ==> u == i
    ensures i < 0 ==> u >= 0x8000_0000_0000_0000
  {
    if i >= 0 then i else i + 0x1_0000_0000_0000_0000
  }

  /** The kind of the first rule's lower value, which selects the request
      type; a client with no rules has a zeroed, Void, first rule. */
  function FirstKind(rules: seq<Rule>): Kind
  {
    if |rules| == 0 then Void else KindOf(rules[0].lower)
  }

  /** Subscribe_Channel: nothing is requested for an empty channel, for a
      first rule of no usable kind, or when the wanted element lies beyond
      the channel's elements; otherwise the request asks for elements up to
      and including the wanted one. (krytenApp/pv_client.c:103-195) */
  function SubscriptionFor(elementCount: nat, kind: Kind, index: int): (r: Option<Subscription>)
    requires IsInt(index) && elementCount < 0x1_0000_0000
    ensures r.Some? <==> elementCount > 0 && kind != Void && AsUnsignedLong(index) <= elementCount
    ensures r.Some? ==> index >= 0 && r.value.count == index
    ensures r.Some? ==> r.value.initial.field == r.value.update.field
    ensures r.Some? ==> r.value.update.meta == Time
    ensures r.Some? && kind == String ==> r.value.initial == Dbr(Sts, FString)
    ensures r.Some? && kind == Integer ==> r.value.initial == Dbr(Ctrl, FLong)
    ensures r.Some? && kind == Floating ==> r.value.initial == Dbr(Ctrl, FDouble)
  {
    if elementCount == 0 then None
    else
      var types := match kind
        case String => Some((Dbr(Sts, FString), Dbr(Time, FString)))
        case Integer => Some((Dbr(Ctrl, FLong), Dbr(Time, FLong)))
        case Floating => Some((Dbr(Ctrl, FDouble), Dbr(Time, FDouble)))
        case Void => None;
      if types.None? then None
      else if AsUnsignedLong(index) > elementCount then None
      else
        var count := if AsUnsignedLong(index) < elementCount then AsUnsignedLong(index) else elementCount;
        Some(Subscription(types.value.0, types.value.1, count))
  }

  // ------------------------------------------------------------ updates

  /** One array element of an update, as its DBR field type holds it. */
  datatype Element = Text(s: string) | Whole(i: int) | Real(d: Double)

  /** The enumeration table of a channel: num_states and the state strings. */
  datatype EnumTable = EnumTable(numStates: int, strings: seq<string>)

  /** An update as the event handler receives it: the buffer type, the
      element count, the elements and, for a control enum, its table. */
  datatype Update = Update(dbrType: DbrType, count: int, elements: seq<Element>, table: EnumTable)

  /** What Channel Access guarantees about an update: there are `count`
      elements of the type's field type, an enum holds an unsigned short,
      the integer types fit an int and the table has MAX_ENUM_STATES
      entries of which at most MAX_ENUM_STATES are in use. */
  predicate Consistent(u: Update)
  {
    && u.count <= |u.elements|
    && |u.table.strings| == MAX_ENUM_STATES
    && 0 <= u.table.numStates <= MAX_ENUM_STATES
    && forall k :: 0 <= k < |u.elements| ==> Fits(u.dbrType.field, u.elements[k])
  }

  predicate Fits(f: Field, x: Element)
  {
    match f
    case FString => x.Text?
    case FFloat => x.Real?
    case FDouble => x.Real?
    case FEnum => x.Whole? && 0 <= x.i < SHORT_MODULUS
    case _ => x.Whole? && IsInt(x.i)
  }

  /** The buffer types the switch of Get_Event_Handler decodes; every other
      type ends in the default branch. (krytenApp/pv_client.c:301-437) */
  predicate Decoded(t: DbrType)
  {
    t.meta == Time || (t.meta == Ctrl && t.field != FString) || t == Dbr(Sts, FString)
  }

  /** (dbr_short_t) of an unsigned short. */
  function ToShort(raw: int): (v: int)
    requires 0 <= raw < SHORT_MODULUS
    ensures -0x8000 <= v < 0x8000
    ensures v == raw || v == raw - SHORT_MODULUS
  {
    if raw < 0x8000 then raw else raw - SHORT_MODULUS
  }

  /** The enum branch as written: the raw value is first cast to a signed
      short, so a value of 32768 or more becomes negative, passes the
      `< num_states` test and indexes before the table. */
  datatype EnumOutcome = EnumValue(v: Value) | OutOfBoundsRead(offset: int)

  function EnumAsWritten(raw: int, table: EnumTable, asString: bool): (r: EnumOutcome)
    requires 0 <= raw < SHORT_MODULUS && |table.strings| == MAX_ENUM_STATES
    ensures r.OutOfBoundsRead? ==> asString && (r.offset < 0 || r.offset >= MAX_ENUM_STATES)
    ensures !asString ==> r == EnumValue(IntegerValue(ToShort(raw)))
  {
    var v := ToShort(raw);
    if !asString then EnumValue(IntegerValue(v))
    else if v < table.numStates then
      if 0 <= v < |table.strings| then EnumValue(StringValue(Truncate(table.strings[v], MAX_ENUM_STRING_SIZE)))
      else OutOfBoundsRead(v)
    else EnumValue(StringValue(""))
  }

  /** The enum branch with the value read as the unsigned short it is: the
      state string when the value names a state, "" otherwise, or the value
      itself as an integer. (krytenApp/pv_client.c:328-350, 395-412) */
  function EnumDecoded(raw: int, table: EnumTable, asString: bool): (v: Value)
    requires 0 <= raw < SHORT_MODULUS && |table.strings| == MAX_ENUM_STATES
    ensures WellFormed(v)
    ensures asString ==> v.StringValue? && |v.s| <= MAX_ENUM_STRING_SIZE
    ensures asString && raw < table.numStates && raw < MAX_ENUM_STATES ==>
              v.s == Truncate(table.strings[raw], MAX_ENUM_STRING_SIZE)
    ensures asString && (raw >= table.numStates || raw >= MAX_ENUM_STATES) ==> v.s == ""
    ensures !asString ==> v == IntegerValue(raw)
  {
    if !asString then IntegerValue(raw)
    else if raw < table.numStates && raw < |table.strings| then
      StringValue(Truncate(table.strings[raw], MAX_ENUM_STRING_SIZE))
    else StringValue("")
  }

  /** Below 32768 the two agree. */
  lemma EnumAgreesBelowSignBit(raw: int, table: EnumTable, asString: bool)
    requires 0 <= raw < 0x8000 && |table.strings| == MAX_ENUM_STATES
    requires 0 <= table.numStates <= MAX_ENUM_STATES
    ensures EnumAsWritten(raw, table, asString) == EnumValue(EnumDecoded(raw, table, asString))
  {
  }

  /** The value 65535 of a two-state enum: as written it reads the entry
      at offset -1; read as unsigned it names no state and gives "". As an
      integer it becomes -1 instead of 65535. */
  lemma EnumSignBitMisreads()
    ensures EnumAsWritten(0xFFFF, EnumTable(2, seq(MAX_ENUM_STATES, _ => "")), true) == OutOfBoundsRead(-1)
    ensures EnumDecoded(0xFFFF, EnumTable(2, seq(MAX_ENUM_STATES, _ => "")), true) == StringValue("")
    ensures EnumAsWritten(0xFFFF, EnumTable(2, seq(MAX_ENUM_STATES, _ => "")), false) == EnumValue(IntegerValue(-1))
    ensures EnumDecoded(0xFFFF, EnumTable(2, seq(MAX_ENUM_STATES, _ => "")), false) == IntegerValue(0xFFFF)
  {
  }

  /** The value of one element: strings cut to 40 characters, integers and
      doubles as they are, enums as above. */
  function DecodeElement(f: Field, x: Element, table: EnumTable, asString: bool): (v: Value)
    requires Fits(f, x) && |table.strings| == MAX_ENUM_STATES
    ensures WellFormed(v) && !v.VoidValue?
    ensures f == FString ==> v == StringValue(Truncate(x.s, MAX_STRING_SIZE))
    ensures f in {FShort, FChar, FLong} ==> v == IntegerValue(x.i)
    ensures f in {FFloat, FDouble} ==> v == FloatingValue(x.d)
  {
    match f
    case FString => StringValue(Truncate(x.s, MAX_STRING_SIZE))
    case FFloat => FloatingValue(x.d)
    case FDouble => FloatingValue(x.d)
    case FEnum => EnumDecoded(x.i, table, asString)
    case _ => IntegerValue(x.i)
  }

  /** What the event handler makes of an update. */
  datatype Selection = Dropped | Undecoded | Selected(v: Value, table: EnumTable)

  /** The pure part of Get_Event_Handler: an update with fewer than `index`
      elements is dropped; otherwise the last element received is read and
      decoded, enums as strings when the first rule is a String. Control
      types other than enum reset num_states to 0; a control enum brings its
      own table; time types keep the stored one.
      (krytenApp/pv_client.c:276-437) */
  function Select(u: Update, index: int, kind: Kind, table: EnumTable): (r: Selection)
    requires Consistent(u) && |table.strings| == MAX_ENUM_STATES && index >= 1
    ensures r.Dropped? <==> (if u.count < 0 then 0 else u.count) < index
    ensures r.Undecoded? <==> !r.Dropped? && !Decoded(u.dbrType)
    ensures r.Selected? ==> 1 <= index <= u.count && WellFormed(r.v) && !r.v.VoidValue?
    ensures r.Selected? ==> |r.table.strings| == MAX_ENUM_STATES
    ensures r.Selected? ==> r.v == DecodeElement(u.dbrType.field, u.elements[u.count - 1], r.table, kind == String)
    ensures r.Selected? && u.dbrType.meta == Time ==> r.table == table
  {
    var number := if u.count < 0 then 0 else u.count;
    if number < index then Dropped
    else if !Decoded(u.dbrType) then Undecoded
    else
      var t := u.dbrType;
      var table' := if t == Dbr(Ctrl, FEnum) then EnumTable(u.table.numStates, u.table.strings)
                    else if t.meta == Time then table
                    else EnumTable(0, table.strings);
      Selected(DecodeElement(t.field, u.elements[number - 1], table', kind == String), table')
  }

  /** What Subscribe_Channel asks for is what the event handler reads: the
      reply to the request is never dropped, it is decoded, and it is
      decoded from the wanted element into a value of the first rule's
      kind. */
  lemma SubscriptionRoundTrip(elementCount: nat, kind: Kind, index: int, u: Update, table: EnumTable)
    requires IsInt(index) && elementCount < 0x1_0000_0000
    requires SubscriptionFor(elementCount, kind, index).Some?
    requires u.dbrType in {SubscriptionFor(elementCount, kind, index).value.initial,
                           SubscriptionFor(elementCount, kind, index).value.update}
    requires u.count == SubscriptionFor(elementCount, kind, index).value.count
    requires Consistent(u) && |table.strings| == MAX_ENUM_STATES && index >= 1
    ensures Select(u, index, kind, table).Selected?
    ensures KindOf(Select(u, index, kind, table).v) == kind
    ensures u.count == index
  {
  }

  /** Subscribe_Channel never asks for an enum buffer type, so no reply to
      its requests reaches the enum branches of Get_Event_Handler: the
      enum sign-bit defect is latent. */
  lemma SubscriptionNeverAsksForEnum(elementCount: nat, kind: Kind, index: int)
    requires IsInt(index) && elementCount < 0x1_0000_0000
    ensures var r := SubscriptionFor(elementCount, kind, index);
            r.Some? ==> r.value.initial.field != FEnum && r.value.update.field != FEnum
  {
  }

  // ------------------------------------------------------------ the client

  /** The fields of CA_Client the decisions read and write. */
  datatype Client = Client(
    entry: Entry,
    magic1: int,
    magic2: int,
    channelId: Option<nat>,
    subscribed: bool,
    isConnected: bool,
    isFirstUpdate: bool,
    elementCount: nat,
    dataElementCount: int,
    table: EnumTable,
    data: Value,
    lastMatched: bool)

  /** Allocate_Client: zeroed memory with both magic numbers set, no
      channel, no subscription, an empty name, no rules, an empty command
      and, being zero, not matched. (krytenApp/pv_client.c:795-816) */
  function AllocateClient(): (c: Client)
    ensures c.magic1 == CA_CLIENT_MAGIC && c.magic2 == CA_CLIENT_MAGIC
    ensures c.channelId.None? && !c.subscribed && !c.isConnected
    ensures c.entry.pvName == "" && |c.entry.rules| == 0 && c.entry.command == ""
    ensures !c.lastMatched && c.data == VoidValue
  {
    Client(Entry("", 0, [], ""), CA_CLIENT_MAGIC, CA_CLIENT_MAGIC, None, false, false, false, 0, 0,
           EnumTable(0, seq(MAX_ENUM_STATES, _ => "")), VoidValue, false)
  }

  /** Validate_Channel_Id: the client registered with the channel is used
      only when the channel id and the user data are present, both magic
      numbers are intact, and the client's own channel id is present and is
      this one. (krytenApp/pv_client.c:501-539) */
  function ValidateChannelId(chid: Option<nat>, user: Option<Client>): (r: Option<Client>)
    ensures r.Some? ==> user.Some? && r.value == user.value
    ensures r.Some? <==> chid.Some? && user.Some?
                         && user.value.magic1 == CA_CLIENT_MAGIC && user.value.magic2 == CA_CLIENT_MAGIC
                         && user.value.channelId == chid
  {
    if chid.None? then None
    else if user.None? then None
    else if user.value.magic1 != CA_CLIENT_MAGIC || user.value.magic2 != CA_CLIENT_MAGIC then None
    else if user.value.channelId.None? then None
    else if user.value.channelId != chid then None
    else user
  }

  /** A freshly allocated client has no channel, so no callback can reach
      it until a channel is created for it. */
  lemma FreshClientIsNotReachable(chid: Option<nat>)
    ensures ValidateChannelId(chid, Some(AllocateClient())).None?
  {
  }

  /** The connection events. */
  datatype ConnectionOp = ConnUp | ConnDown | OtherOp

  /** The effect of a connection event on a client. */
  datatype Reaction = Reaction(client: Client, request: Option<Subscription>, call: Option<Filter.Call>)

  /** application_connection_handler for a validated client: on connection
      the element count is recorded and the subscription made, on
      disconnection the subscription is dropped and the disconnect command
      always issued; the match memory is kept either way.
      (krytenApp/pv_client.c:547-590) */
  function ConnectionHandler(c: Client, op: ConnectionOp, elementCount: nat): (r: Reaction)
    requires IsInt(c.entry.index) && elementCount < 0x1_0000_0000
    ensures r.client.entry == c.entry && r.client.lastMatched == c.lastMatched
    ensures op == ConnUp ==> r.client.isConnected && r.client.elementCount == elementCount && r.call.None?
    ensures op == ConnUp ==> r.request == SubscriptionFor(elementCount, FirstKind(c.entry.rules), c.entry.index)
    ensures op == ConnDown ==> !r.client.subscribed && r.request.None?
    ensures op == ConnDown ==> r.call.Some? && r.call.value.state == Filter.DISCONNECT_STATE
    ensures op == OtherOp ==> r == Reaction(c, None, None)
  {
    match op
    case ConnUp =>
      var request := SubscriptionFor(elementCount, FirstKind(c.entry.rules), c.entry.index);
      var c' := c.(isConnected := true, elementCount := elementCount, dataElementCount := 0,
                   isFirstUpdate := if request.Some? then true else c.isFirstUpdate,
                   subscribed := c.subscribed || request.Some?);
      Reaction(c', request, None)
    case ConnDown =>
      var o := Filter.ProcessDisconnect(c.entry, c.lastMatched);
      Reaction(c.(subscribed := false), None, o.call)
    case OtherOp => Reaction(c, None, None)
  }

  /** Get_Event_Handler: a dropped update changes nothing; an update of a
      type not decoded voids the data and stops there; otherwise the data is
      replaced, the match engine runs, and the first-update flag is cleared.
      The configuration is never touched. (krytenApp/pv_client.c:219-446) */
  function GetEventHandler(rel: Relations, floatText: (FloatStyle, Double) -> string,
                           c: Client, u: Update): (r: (Client, Option<Filter.Call>))
    requires Consistent(u) && |c.table.strings| == MAX_ENUM_STATES && c.entry.index >= 1
    ensures r.0.entry == c.entry && r.0.channelId == c.channelId
    ensures r.1.Some? ==> r.0.lastMatched != c.lastMatched
    ensures Select(u, c.entry.index, FirstKind(c.entry.rules), c.table).Dropped? ==> r == (c, None)
    ensures Select(u, c.entry.index, FirstKind(c.entry.rules), c.table).Undecoded? ==>
              r == (c.(data := VoidValue), None)
    ensures Select(u, c.entry.index, FirstKind(c.entry.rules), c.table).Selected? ==>
              !r.0.isFirstUpdate && r.0.data == Select(u, c.entry.index, FirstKind(c.entry.rules), c.table).v
              && (r.0.lastMatched <==> Filter.Matches(rel, r.0.data, c.entry.rules))
  {
    match Select(u, c.entry.index, FirstKind(c.entry.rules), c.table)
    case Dropped => (c, None)
    case Undecoded => (c.(data := VoidValue), None)
    case Selected(v, table) =>
      var o := Filter.ProcessUpdate(rel, floatText, c.entry, v, c.lastMatched);
      (c.(data := v, table := table, isFirstUpdate := false, lastMatched := o.lastMatched,
          dataElementCount := if u.dbrType.meta == Time then u.count else c.dataElementCount), o.call)
  }

  /** Which request an event answers: the initial get, the subscription, a
      put, or something unknown. */
  datatype EventTag = GetTag | EventTag | PutTag | UnknownTag

  /** application_event_handler for a validated client: only a successful
      get or subscription reply with data reaches Get_Event_Handler.
      (krytenApp/pv_client.c:595-636) */
  function EventHandler(rel: Relations, floatText: (FloatStyle, Double) -> string,
                        c: Client, normal: bool, tag: EventTag, u: Option<Update>): (r: (Client, Option<Filter.Call>))
    requires u.Some? ==> Consistent(u.value)
    requires |c.table.strings| == MAX_ENUM_STATES && c.entry.index >= 1
    ensures !(normal && tag in {GetTag, EventTag} && u.Some?) ==> r == (c, None)
    ensures normal && tag in {GetTag, EventTag} && u.Some? ==> r == GetEventHandler(rel, floatText, c, u.value)
  {
    if normal && (tag == GetTag || tag == EventTag) && u.Some? then GetEventHandler(rel, floatText, c, u.value)
    else (c, None)
  }
}
