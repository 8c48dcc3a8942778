/** The match criteria of the newer revision (krytenApp/pv_client.h): a
    comparison operator with one or two values, and what one configuration
    entry describes. */
module Rules {
  import opened Variants

  const MAXIMUM_PVNAME_SIZE: nat := 80
  const NUMBER_OF_VARIANT_RANGES: nat := 20
  const MATCH_COMMAND_LENGTH: nat := 120

  /** Comparision_Kind, in declaration order: the order matters because
      the parser tries the operators in this order and two-character
      operators must come before their one-character prefixes. */
  datatype Comparison =
    | NoComparison
    | NotEqual
    | LessThanEqual
    | GreaterThanEqual
    | Equal
    | LessThan
    | GreaterThan
    | Range

  /** The enumeration value of each comparison. */
  function Ordinal(c: Comparison): (n: nat)
    ensures n <= 7
    ensures n == 0 <==> c == NoComparison
  {
    match c
    case NoComparison => 0
    case NotEqual => 1
    case LessThanEqual => 2
    case GreaterThanEqual => 3
    case Equal => 4
    case LessThan => 5
    case GreaterThan => 6
    case Range => 7
  }

  /** Variant_Range: an operator and its operands; `upper` is used by Range
      only and is Void otherwise. */
  datatype Rule = Rule(comp: Comparison, lower: Value, upper: Value)

  /** What a rule produced by the parser looks like. */
  predicate WellFormedRule(r: Rule)
  {
    && r.comp != NoComparison
    && WellFormed(r.lower) && !r.lower.VoidValue?
    && (r.comp == Range <==> !r.upper.VoidValue?)
    && WellFormed(r.upper)
  }

  /** One accepted configuration entry: the PV name, the array element
      (counted from 1), the rules (Variant_Range_Collection) and the
      command template. */
  datatype Entry = Entry(pvName: string, index: int, rules: seq<Rule>, command: string)
}
