/** `derive_helpers::missing_field`, the function the generated deserializer
    calls for every field whose key never appeared. */
module DeriveHelpers {
  import opened Wrappers
  import opened Cbor

  /** The two errors the generated `visit_map` raises itself. */
  datatype DeError =
    | Duplicate(field: string)   // serde's `Error::duplicate_field`
    | Missing(field: string)     // serde's `Error::missing_field`

  /** `missing_field(field)`: deserializing from the missing-field
      deserializer gives `None` (serde writes it as `Null`) when the field is
      an `Option`, whose `deserialize_option` calls `visit_none`; every other
      type goes through `deserialize_any`, which fails. */
  function MissingField(field: string, isOption: bool): (r: Result<Value, DeError>)
    ensures r.Success? <==> isOption
    ensures r.Success? ==> r.value == Null
    ensures r.Failure? ==> r.error == Missing(field)
  {
    if isOption then Success(Null) else Failure(Missing(field))
  }
}
