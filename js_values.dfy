/**
 * The loosely-typed JavaScript values the store and the pages work on:
 * records are plain objects (maps from field names to values), numbers are
 * modelled as integers with NaN kept apart, and `Date` objects carry their
 * time value in milliseconds.
 */
module JsValues {
  import opened Wrappers
  import opened Text

  datatype Value =
    | Undefined
    | Null
    | Bool(b: bool)
    | Num(n: int)
    | NaN
    | Str(s: string)
    | Date(ms: int)
    | List(items: seq<Value>)
    | Obj(fields: map<string, Value>)

  /** A stored record: a plain object. An absent field reads as `undefined`. */
  type Rec = map<string, Value>

  /** `r.f` */
  function Get(r: Rec, f: string): Value {
    if f in r then r[f] else Undefined
  }

  /** `v?.f` on any value: only objects have fields. */
  function Field(v: Value, f: string): Value {
    if v.Obj? then Get(v.fields, f) else Undefined
  }

  /** JavaScript truthiness. */
  predicate Truthy(v: Value) {
    match v
    case Undefined => false
    case Null => false
    case NaN => false
    case Bool(b) => b
    case Num(n) => n != 0
    case Str(s) => s != ""
    case _ => true
  }

  /** `a || b` */
  function Or(a: Value, b: Value): Value {
    if Truthy(a) then a else b
  }

  /**
   * `{...v}` for an object: its own fields. Any other value spreads no
   * fields here; JavaScript would spread a string's characters and a list's
   * elements under their indexes.
   */
  function Spread(v: Value): Rec {
    if v.Obj? then v.fields else map[]
  }

  predicate IsDigit(c: char) {
    '0' as int <= c as int <= '9' as int
  }

  predicate AllDigits(s: string) {
    forall i :: 0 <= i < |s| ==> IsDigit(s[i])
  }

  function DigitsValue(s: string): nat
    requires AllDigits(s)
  {
    if s == [] then 0
    else
      assert IsDigit(s[|s| - 1]);
      DigitsValue(s[..|s| - 1]) * 10 + (s[|s| - 1] as int - '0' as int)
  }

  /** `Number(s)` for integer literals: blank text is 0, an optional sign, then decimal digits. */
  function ParseInteger(s: string): Option<int> {
    var t := Trim(s);
    if t == "" then Some(0)
    else if (t[0] == '-' || t[0] == '+') && |t| > 1 && AllDigits(t[1..]) then
      var magnitude: int := DigitsValue(t[1..]);
      Some(if t[0] == '-' then -magnitude else magnitude)
    else if AllDigits(t) then Some(DigitsValue(t))
    else None
  }

  /** `Number(v)`; `None` stands for NaN. */
  function ToNumber(v: Value): Option<int> {
    match v
    case Undefined => None
    case Null => Some(0)
    case NaN => None
    case Bool(b) => Some(if b then 1 else 0)
    case Num(n) => Some(n)
    case Str(s) => ParseInteger(s)
    case Date(ms) => Some(ms)
    case List(_) => None
    case Obj(_) => None
  }

  /** `Number(v) || 0`: NaN and every value that does not convert count as 0. */
  function NumberOrZero(v: Value): int {
    match ToNumber(v)
    case Some(n) => n
    case None => 0
  }

  /** `a - b` */
  function Minus(a: Value, b: Value): Value {
    match (ToNumber(a), ToNumber(b))
    case (Some(x), Some(y)) => Num(x - y)
    case _ => NaN
  }

  /** `a + b` where both operands are numbers (or NaN). */
  function Plus(a: Value, b: Value): Value
    requires !a.Str? && !b.Str?
  {
    match (ToNumber(a), ToNumber(b))
    case (Some(x), Some(y)) => Num(x + y)
    case _ => NaN
  }

  /** Days from 1970-01-01 to the given proleptic Gregorian date. */
  function DaysFromCivil(y: int, m: int, d: int): int {
    var y' := if m <= 2 then y - 1 else y;
    var era := y' / 400;
    var yoe := y' - era * 400;
    var mp := if m > 2 then m - 3 else m + 9;
    var doy := (153 * mp + 2) / 5 + d - 1;
    var doe := yoe * 365 + yoe / 4 - yoe / 100 + doy;
    era * 146097 + doe - 719468
  }

  predicate DigitsAt(s: string, i: nat, n: nat) {
    i + n <= |s| && AllDigits(s[i..i + n])
  }

  function NumAt(s: string, i: nat, n: nat): nat
    requires DigitsAt(s, i, n)
  {
    DigitsValue(s[i..i + n])
  }

  /**
   * `Date.parse(s)` for the UTC forms of ISO 8601 that the app meets: a
   * date `YYYY-MM-DD`, a time `YYYY-MM-DDTHH:MM:SSZ`, and the
   * `toISOString()` form `YYYY-MM-DDTHH:MM:SS.sssZ` that JSON gives a
   * `Date`. Hour 24 is accepted only as `24:00:00.000`, the end of the day.
   */
  function ParseIsoDate(s: string): Option<int> {
    if (|s| == 10 || (|s| == 20 && s[19] == 'Z') || (|s| == 24 && s[19] == '.' && s[23] == 'Z'))
       && DigitsAt(s, 0, 4) && s[4] == '-' && DigitsAt(s, 5, 2) && s[7] == '-' && DigitsAt(s, 8, 2)
    then
      var y, mo, d := NumAt(s, 0, 4), NumAt(s, 5, 2), NumAt(s, 8, 2);
      if !(1 <= mo <= 12 && 1 <= d <= 31) then None
      else if |s| == 10 then Some(DaysFromCivil(y, mo, d) * 86400000)
      else if s[10] == 'T' && s[13] == ':' && s[16] == ':'
              && DigitsAt(s, 11, 2) && DigitsAt(s, 14, 2) && DigitsAt(s, 17, 2) && (|s| == 20 || DigitsAt(s, 20, 3)) then
        var h, mi, se := NumAt(s, 11, 2), NumAt(s, 14, 2), NumAt(s, 17, 2);
        var ms := if |s| == 24 then NumAt(s, 20, 3) else 0;
        if (h < 24 && mi <= 59 && se <= 59) || (h == 24 && mi == 0 && se == 0 && ms == 0) then
          Some(DaysFromCivil(y, mo, d) * 86400000 + ((h * 60 + mi) * 60 + se) * 1000 + ms)
        else None
      else None
    else None
  }

  /** The time value of `new Date(v)`; `None` stands for an invalid date. */
  function TimeOf(v: Value): Option<int> {
    match v
    case Date(ms) => Some(ms)
    case Num(n) => Some(n)
    case Null => Some(0)
    case Bool(b) => Some(if b then 1 else 0)
    case Str(s) => ParseIsoDate(s)
    case _ => None
  }

  /** The sort key of `new Date(v)` in a comparator; an invalid date sorts as time 0. */
  function SortTime(v: Value): int {
    match TimeOf(v)
    case Some(t) => t
    case None => 0
  }

  /** The sort key of `new Date(r.createdAt)`. */
  function CreatedKey(r: Rec): int {
    SortTime(Get(r, "createdAt"))
  }

  /** `String(v)` for the values a message template substitutes. */
  function ToText(v: Value): string {
    match v
    case Str(s) => s
    case Num(n) => if n < 0 then "-" + NatToString(-n) else NatToString(n)
    case Bool(b) => if b then "true" else "false"
    case Null => "null"
    case NaN => "NaN"
    case _ => ""
  }

  /**
   * `a === b`. Primitives compare by value and `NaN` equals nothing;
   * objects, arrays and dates compare by identity, and two values read
   * from the store are never the same object.
   */
  predicate StrictEq(a: Value, b: Value) {
    a == b && (a.Undefined? || a.Null? || a.Bool? || a.Num? || a.Str?)
  }

  /** The text of a value the pages call string methods on; anything but a string reads as `""`. */
  function AsText(v: Value): string {
    if v.Str? then v.s else ""
  }

  /** `v?.length || 0` */
  function Length(v: Value): nat {
    match v
    case List(items) => |items|
    case Str(s) => |s|
    case _ => 0
  }

  /** The `_id` under which the store keeps a record, when it is a valid (string) key. */
  function KeyOf(r: Rec): Option<string> {
    match Get(r, "_id")
    case Str(k) => Some(k)
    case _ => None
  }

  /** `r.synced === true` */
  predicate IsSynced(r: Rec) {
    Get(r, "synced") == Bool(true)
  }
}
