/** The cJSON struct: a node linked to its siblings, owning or referring to its children. */
module JsonItem {
  import opened Bytes
  import opened JsonTree

  /** A heap-allocated C string. */
  class CText {
    const bytes: Text

    constructor (bytes: Text)
      ensures this.bytes == bytes
    {
      this.bytes := bytes;
    }
  }

  class Item {
    var next: Item?
    var prev: Item?
    var child: Item?
    var kind: byte              // type & 0xFF
    var isReference: bool       // type & cJSON_IsReference
    var stringIsConst: bool     // type & cJSON_StringIsConst
    var valueString: CText?
    var valueInt: int
    var valueDouble: Decimal
    var key: CText?              // `string`

    /** cJSON_New_Item: everything zero. */
    constructor ()
      ensures next == null && prev == null && child == null && kind == 0 && !isReference && !stringIsConst
      ensures valueString == null && valueInt == 0 && valueDouble == Decimal(0, 0) && key == null
    {
      next, prev, child, kind, isReference, stringIsConst := null, null, null, 0, false, false;
      valueString, valueInt, valueDouble, key := null, 0, Decimal(0, 0), null;
    }
  }

  function TextOf(s: CText?): Option<Text> {
    if s == null then None else Some(s.bytes)
  }
}
