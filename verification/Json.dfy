/** The value a cJSON tree denotes. */
module JsonValue {
  import opened Bytes
  import opened Numbers

  /** An object is an ordered list of members, duplicate keys allowed. A number
      with a fraction or a non-zero exponent is kept as the mantissa the digit
      loop of `parse_number` accumulated, rounded after every digit, and the
      power of ten it is to be scaled by. */
  datatype Json =
    | Null
    | Bool(b: bool)
    | Int(v: int)
    | Dbl(mantissa: int, exp10: int)
    | Str(s: Text)
    | Arr(items: seq<Json>)
    | Obj(members: seq<Member>)

  datatype Member = Member(key: Text, value: Json)

  /** What the printer is modelled for: no doubles, and strings and keys that
      are C strings. */
  predicate Printable(v: Json) {
    match v
    case Dbl(_, _) => false
    case Str(s) => NulFree(s)
    case Arr(items) => forall i :: 0 <= i < |items| ==> Printable(items[i])
    case Obj(ms) => forall i :: 0 <= i < |ms| ==> NulFree(ms[i].key) && Printable(ms[i].value)
    case _ => true
  }

  predicate DoubleFree(v: Json) {
    match v
    case Dbl(_, _) => false
    case Arr(items) => forall i :: 0 <= i < |items| ==> DoubleFree(items[i])
    case Obj(ms) => forall i :: 0 <= i < |ms| ==> DoubleFree(ms[i].value)
    case _ => true
  }

  /** Every integer is one the digit loop of `parse_number` leaves as it is. */
  predicate AllExact(v: Json) {
    match v
    case Int(n) => Exact(n)
    case Arr(items) => forall i :: 0 <= i < |items| ==> AllExact(items[i])
    case Obj(ms) => forall i :: 0 <= i < |ms| ==> AllExact(ms[i].value)
    case _ => true
  }

  predicate AllWithinReach(v: Json) {
    match v
    case Int(n) => -REACH <= n <= REACH
    case Arr(items) => forall i :: 0 <= i < |items| ==> AllWithinReach(items[i])
    case Obj(ms) => forall i :: 0 <= i < |ms| ==> AllWithinReach(ms[i].value)
    case _ => true
  }

  /** Every integer is one a double holds, whatever its magnitude. */
  predicate AllDoubles(v: Json) {
    match v
    case Int(n) => IsDouble(Abs(n))
    case Arr(items) => forall i :: 0 <= i < |items| ==> AllDoubles(items[i])
    case Obj(ms) => forall i :: 0 <= i < |ms| ==> AllDoubles(ms[i].value)
    case _ => true
  }
}
