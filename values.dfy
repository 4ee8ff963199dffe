/** The Python objects getStatus receives, told apart by their runtime type. */
module Values {
  import opened Outcomes
  import opened Calendar
  import opened Numerals

  datatype Value =
    | Bool(b: bool)
    | Int(i: int)
    | Str(s: string)
    /** A datetime.datetime; only its date is ever read. */
    | DateTime(date: CalendarDate)
    /** A datetime.date that is not a datetime.datetime. */
    | DateOnly(date: CalendarDate)
    /** Any other object (None, a float, a list, ...), by type name. */
    | Other(typeName: string)

  /** type(v).__name__. */
  function TypeName(v: Value): string {
    match v
    case Bool(_) => "bool"
    case Int(_) => "int"
    case Str(_) => "str"
    case DateTime(_) => "datetime"
    case DateOnly(_) => "date"
    case Other(t) => t
  }

  /** isinstance(v, int): bool is a subclass of int in Python, so True and False pass. */
  predicate IsInstanceInt(v: Value) {
    v.Int? || v.Bool?
  }

  /** str(v) for an int or a bool. */
  function IntText(v: Value): (s: string)
    requires IsInstanceInt(v)
    ensures v.Int? ==> DecimalValue(s) == Some(v.i)
    ensures v.Bool? ==> DecimalValue(s) == None
  {
    match v
    case Bool(b) => if b then "True" else "False"
    case Int(i) => DecimalRoundTrip(i); Decimal(i)
  }
}
