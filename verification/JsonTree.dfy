/** The value a cJSON tree stands for. A node's sibling list is the sequence of its children. */
module JsonTree {
  import opened Bytes

  /** A decimal literal as read, before rounding to a double: mantissa * 10^exp10. */
  datatype Decimal = Decimal(mantissa: int, exp10: int)

  datatype Json =
    | Null
    | False
    | True
    | Number(num: Decimal)
    | String(text: Text)
    | Array(items: seq<Json>)
    | Object(members: seq<Member>)

  datatype Member = Member(key: Text, value: Json)

  datatype ParseResult<+T> = Parsed(value: T, next: nat) | Failed(at: nat)
}
