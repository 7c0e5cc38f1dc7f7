/** The data items handed to and received from the external CBOR layer.
    The byte-level encoding itself belongs to that layer and is not modelled;
    a map is an ordered list of (key, value) entries, exactly as the
    serializer emits them. */
module Cbor {

  /** An unsigned 8-bit integer (`u8`). */
  type Byte = b: int | 0 <= b < 256

  datatype Value =
    | Null                          // also how serde writes `Option::None`
    | Bool(b: bool)
    | Int(i: int)
    | Bytes(bytes: seq<Byte>)
    | Text(text: string)
    | Array(items: seq<Value>)
    | Map(entries: seq<(Value, Value)>)

  /** The bytes of an ASCII string literal. */
  function AsciiBytes(s: string): (r: seq<Byte>)
    requires forall i :: 0 <= i < |s| ==> s[i] as int < 128
    ensures |r| == |s|
    ensures forall i :: 0 <= i < |s| ==> r[i] == s[i] as int
  {
    seq(|s|, i requires 0 <= i < |s| => s[i] as int)
  }
}
