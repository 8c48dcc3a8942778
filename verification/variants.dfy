/** The variant value a PV update is decoded into, and the operations on it:
    the kind image, the strict sameness test, the cross-kind `<=` and the text
    image handed to the user's command (kryten/utilities.c:314-518).

    The newer revision keeps the same type but replaces Same and Le with six
    relations whose bodies are not part of this model; they are passed in as
    a `Relations` value. */
module Variants {
  import opened CStrings
  import opened Numbers

  /** EPICS limits: a DBR_STRING holds up to 40 characters, an enumeration
      state string up to 26. The C union reserves 41 bytes for strings. */
  const MAX_STRING_SIZE: nat := 40
  const MAX_ENUM_STRING_SIZE: nat := 26
  const STRING_BUFFER_SIZE: nat := 41

  datatype Kind = Void | String | Integer | Floating

  datatype Value =
    | VoidValue
    | StringValue(s: string)
    | IntegerValue(i: int)
    | FloatingValue(d: Double)

  function KindOf(v: Value): Kind
  {
    match v
    case VoidValue => Void
    case StringValue(_) => String
    case IntegerValue(_) => Integer
    case FloatingValue(_) => Floating
  }

  /** What the C union can hold: a string that fits sval with its
      terminator, an integer that fits a long. */
  predicate WellFormed(v: Value)
  {
    match v
    case StringValue(s) => |s| <= MAX_STRING_SIZE
    case IntegerValue(i) => IsLong(i)
    case _ => true
  }

  /** vkImage: the name of a kind as diagnostics print it. The C default
      branch ("unknown var kind") needs a value outside the enumeration and
      has no counterpart here. */
  function KindImage(k: Kind): (s: string)
    ensures |s| > 0
  {
    match k
    case Void => "void"
    case String => "string"
    case Integer => "integer"
    case Floating => "floating"
  }

  /** Distinct kinds print differently, so the image names the kind. */
  lemma KindImageNamesKind(a: Kind, b: Kind)
    ensures KindImage(a) == KindImage(b) <==> a == b
  {
  }

  /** Varient_Same: a strict test with no conversion between kinds. Two voids
      are the same; strings compare over the 41 bytes of the buffer, numbers
      with C's `==`. */
  predicate Same(a: Value, b: Value)
  {
    match (a, b)
    case (VoidValue, VoidValue) => true
    case (StringValue(x), StringValue(y)) => StrNCmp(x, y, STRING_BUFFER_SIZE) == 0
    case (IntegerValue(x), IntegerValue(y)) => x == y
    case (FloatingValue(x), FloatingValue(y)) => DoubleEq(x, y)
    case _ => false
  }

  /** On values the C union can hold, Same is plain equality except that a
      NaN is the same as nothing; in particular Same (5.0, 5) is false. */
  lemma SameIsEquality(a: Value, b: Value)
    requires WellFormed(a) && WellFormed(b)
    ensures Same(a, b) <==> a == b && a != FloatingValue(NaN)
  {
    if a.StringValue? && b.StringValue? {
      assert Truncate(a.s, STRING_BUFFER_SIZE) == a.s;
      assert Truncate(b.s, STRING_BUFFER_SIZE) == b.s;
    }
  }

  /** Varient_Le: `<=` with conversions between kinds. A string against a
      number is converted with atof or atol; an integer against a floating
      value is converted to double; anything involving a void is false. */
  predicate Le(a: Value, b: Value)
  {
    match (a, b)
    case (StringValue(x), StringValue(y)) => StrNCmp(x, y, STRING_BUFFER_SIZE) <= 0
    case (StringValue(x), FloatingValue(y)) => DoubleLe(Atof(x), y)
    case (StringValue(x), IntegerValue(y)) => Atol(x) <= y
    case (FloatingValue(x), StringValue(y)) => DoubleLe(x, Atof(y))
    case (FloatingValue(x), FloatingValue(y)) => DoubleLe(x, y)
    case (FloatingValue(x), IntegerValue(y)) => DoubleLe(x, FromLong(y))
    case (IntegerValue(x), StringValue(y)) => x <= Atol(y)
    case (IntegerValue(x), FloatingValue(y)) => DoubleLe(FromLong(x), y)
    case (IntegerValue(x), IntegerValue(y)) => x <= y
    case _ => false
  }

  /** Le is reflexive where Same holds, in both directions. */
  lemma SameImpliesLe(a: Value, b: Value)
    requires Same(a, b) && !a.VoidValue?
    ensures Le(a, b) && Le(b, a)
  {
    if a.StringValue? {
      CompareAntisymmetric(Truncate(a.s, STRING_BUFFER_SIZE), Truncate(b.s, STRING_BUFFER_SIZE));
    }
  }

  /** Between strings Le is a total order whose equivalence is Same. */
  lemma LeOrdersStrings(a: Value, b: Value, c: Value)
    requires a.StringValue? && b.StringValue? && c.StringValue?
    ensures Le(a, b) || Le(b, a)
    ensures Le(a, b) && Le(b, a) <==> Same(a, b)
    ensures Le(a, b) && Le(b, c) ==> Le(a, c)
  {
    var x := Truncate(a.s, STRING_BUFFER_SIZE);
    var y := Truncate(b.s, STRING_BUFFER_SIZE);
    var z := Truncate(c.s, STRING_BUFFER_SIZE);
    CompareAntisymmetric(x, y);
    if Le(a, b) && Le(b, c) {
      CompareTransitive(x, y, z);
    }
  }

  /** The header's warning made concrete: String "5" and Integer 5 are each
      `<=` the other, yet they are not the same value. */
  lemma LeIsNotSame()
    ensures Le(StringValue("5"), IntegerValue(5))
    ensures Le(IntegerValue(5), StringValue("5"))
    ensures !Same(StringValue("5"), IntegerValue(5))
  {
    LongValueReadsDecimalImage(5);
    assert DecimalImage(5) == "5";
  }

  /** The two printf conversions Varient_Image chooses between for a double. */
  datatype FloatStyle = FixedThree | ExponentSix

  /** "%.3f" for zero and for magnitudes in [0.1, 1.0e6], "%.6e" otherwise;
      an infinity or a NaN fails both comparisons and gets "%.6e". */
  function StyleOf(d: Double): (f: FloatStyle)
  {
    match d
    case Finite(r) =>
      var m := if r < 0.0 then -r else r;
      if m == 0.0 || (0.1 <= m && m <= 1000000.0) then FixedThree else ExponentSix
    case _ => ExponentSix
  }

  /** Outcome of an snprintf: the text left in the buffer and the value
      returned, the length the text would have had without truncation. */
  datatype Rendered = Rendered(text: string, length: int)

  /** The untruncated image of a value, or None for a void. Doubles are
      formatted by `floatText`: the digits printf produces are not modelled,
      only the choice of conversion. */
  function FullImage(v: Value, floatText: (FloatStyle, Double) -> string): Optional.Option<string>
  {
    match v
    case VoidValue => Optional.None
    case StringValue(s) => Optional.Some(s)
    case IntegerValue(i) => Optional.Some(DecimalImage(i))
    case FloatingValue(d) => Optional.Some(floatText(StyleOf(d), d))
  }

  /** Varient_Image (str, size, item): for a void nothing is written and -1 is
      returned, leaving the buffer as the caller initialised it (both callers
      start from ""); otherwise at most size-1 characters are written and the
      full length is returned. */
  function Image(v: Value, size: nat, floatText: (FloatStyle, Double) -> string): (r: Rendered)
    requires size >= 1
    ensures r.length == -1 <==> v.VoidValue?
    ensures v.VoidValue? ==> r.text == ""
    ensures r.length >= 0 ==> |r.text| == Min(r.length, size - 1)
    ensures |r.text| <= size - 1
    ensures FullImage(v, floatText).Some? ==> r.text <= FullImage(v, floatText).value
    ensures FullImage(v, floatText).Some? ==> r.length == |FullImage(v, floatText).value|
  {
    match FullImage(v, floatText)
    case None => Rendered("", -1)
    case Some(t) => Rendered(Truncate(t, size - 1), |t|)
  }

  /** The 44-byte value image holds every well-formed string and integer
      value whole, and reading an integer image back gives the integer: the
      "format then parse" round trip of the value a command receives. */
  lemma ValueImageRoundTrip(v: Value, floatText: (FloatStyle, Double) -> string)
    requires WellFormed(v) && (v.StringValue? || v.IntegerValue?)
    ensures Image(v, 44, floatText).text == FullImage(v, floatText).value
    ensures v.StringValue? ==> Image(v, 44, floatText).text == v.s
    ensures v.IntegerValue? ==> LongValue(Image(v, 44, floatText).text) == Scanned(v.i, true)
  {
    if v.IntegerValue? {
      DecimalImageLength(v.i);
      LongValueReadsDecimalImage(v.i);
    }
  }

  /** Variant_Eq, Variant_Ne, Variant_Lt, Variant_Le, Variant_Gt and
      Variant_Ge of the newer revision, each applied as (left, right). */
  datatype Relations = Relations(
    eq: (Value, Value) -> bool,
    ne: (Value, Value) -> bool,
    lt: (Value, Value) -> bool,
    le: (Value, Value) -> bool,
    gt: (Value, Value) -> bool,
    ge: (Value, Value) -> bool)
}
