/** What a `$filter` says of a row (`crates/mockpc/src/filter.rs`, `matches` and `compare`). */
module FilterEval {
  import opened Wrappers
  import Text
  import opened Json
  import opened Filter

  /** How a document value orders against a number's text, when it is comparable at all: floating
      point, which this model leaves to its caller. */
  type NumberOrder = (Value, string) -> Option<Text.Ordering>

  /** What a row holds at a path of keys: nothing when a key is missing on the way or the value is null. */
  function LookupPath(row: Value, path: seq<string>): Option<Value>
    decreases |path|
  {
    if path == [] then if row.Null? then None else Some(row)
    else match Lookup(row, path[0])
      case Some(v) => LookupPath(v, path[1..])
      case None => None
  }

  function OrderHolds(op: Op, o: Text.Ordering): bool {
    match op
    case Eq => o.Equal?
    case Ne => !o.Equal?
    case Ge => !o.Less?
    case Le => !o.Greater?
    case Gt => o.Greater?
    case Lt => o.Less?
  }

  /** A property the row lacks is `ne` everything and nothing else. */
  function CompareValue(value: Option<Value>, op: Op, literal: Literal, numbers: NumberOrder): bool {
    if value.None? then op == Ne
    else match literal
      case Flag(l) =>
        if value.value.Bool? then (op == Eq && value.value.b == l) || (op == Ne && value.value.b != l)
        else op == Ne
      case Numeral(l) =>
        (match numbers(value.value, l)
         case Some(o) => OrderHolds(op, o)
         case None => op == Ne)
      case Text(l) =>
        if value.value.String? then OrderHolds(op, Text.CompareText(InstantKey(value.value.s), InstantKey(l)))
        else op == Ne
  }

  predicate Matches(f: Filter, row: Value, numbers: NumberOrder) {
    match f
    case And(l, r) => Matches(l, row, numbers) && Matches(r, row, numbers)
    case Or(l, r) => Matches(l, row, numbers) || Matches(r, row, numbers)
    case StartsWith(path, prefix) =>
      var v := LookupPath(row, path);
      v.Some? && v.value.String? && prefix <= v.value.s
    case Compare(path, op, literal) => CompareValue(LookupPath(row, path), op, literal, numbers)
  }

  /** The text before the first point, and what follows it. */
  function SplitAtPoint(s: string): (string, string) {
    if s == "" then ("", "")
    else if s[0] == '.' then ("", s[1..])
    else
      var rest := SplitAtPoint(s[1..]);
      ([s[0]] + rest.0, rest.1)
  }

  function PadRight(s: string, width: nat): string {
    if |s| >= width then s else s + seq(width - |s|, _ => '0')
  }

  /** What two instants are ordered by: the fraction padded to nine digits, an absent one zero. */
  function InstantKey(s: string): string {
    if !IsInstant(s) then s
    else
      var parts := SplitAtPoint(s[..|s| - 1]);
      parts.0 + "." + PadRight(parts.1, 9) + "Z"
  }

  lemma {:induction false} NoPointToSplit(s: string)
    requires '.' !in s
    ensures SplitAtPoint(s) == (s, "")
  {
    if s != "" {
      NoPointToSplit(s[1..]);
      assert [s[0]] + s[1..] == s;
    }
  }
}
