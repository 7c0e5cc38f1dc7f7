/** The code that `#[derive(SerializeIndexed, DeserializeIndexed)]` generates
    for a struct, as functions of the parsed layout (`Parse.Input`): the
    entries `serialize` writes into a CBOR map and the value `visit_map`
    builds from the entries it reads. */
module SerdeIndexed {
  import opened Wrappers
  import opened Cbor
  import opened Parse
  import opened DeriveHelpers

  /** A map entry: an integer key and the value stored under it. */
  type Entry = (int, Value)

  /** The value of one struct field: an ordinary field, or the extras field,
      a `BTreeMap<isize, Value>` held as its entries in ascending key order. */
  datatype FieldValue = Single(value: Value) | ExtrasMap(entries: seq<Entry>)

  /** What `serialize` hands to the serializer: the length announced to
      `serialize_map` and the entries in the order they are written. */
  datatype Encoded = Encoded(length: Option<nat>, entries: seq<Entry>)

  // ---------------------------------------------------------------------------
  // The extras map (a BTreeMap)
  // ---------------------------------------------------------------------------

  predicate StrictlySorted(m: seq<Entry>) {
    forall i, j :: 0 <= i < j < |m| ==> m[i].0 < m[j].0
  }

  predicate NegativeKeys(m: seq<Entry>) {
    forall i :: 0 <= i < |m| ==> m[i].0 < 0
  }

  /** The value the map holds under key k. */
  function Lookup(m: seq<Entry>, k: int): Option<Value> {
    if m == [] then None
    else if m[0].0 == k then Some(m[0].1)
    else Lookup(m[1..], k)
  }

  /** `BTreeMap::insert`: k now maps to v, every other key is untouched, and
      the entries stay in ascending key order. */
  function Insert(m: seq<Entry>, k: int, v: Value): (r: seq<Entry>)
    requires StrictlySorted(m)
    ensures StrictlySorted(r)
    ensures forall j :: Lookup(r, j) == if j == k then Some(v) else Lookup(m, j)
    ensures forall e :: e in r ==> e == (k, v) || e in m
    ensures NegativeKeys(m) && k < 0 ==> NegativeKeys(r)
  {
    if m == [] then [(k, v)]
    else if k < m[0].0 then [(k, v)] + m
    else if k == m[0].0 then [(k, v)] + m[1..]
    else
      var rest := Insert(m[1..], k, v);
      assert forall e :: e in rest ==> m[0].0 < e.0;
      [m[0]] + rest
  }

  // ---------------------------------------------------------------------------
  // Layouts and values
  // ---------------------------------------------------------------------------

  /** The fields marked `#[serde_indexed(extras)]`, in declaration order (the
      `filter` in `derive_deserialize`). */
  function ExtrasPositions(fields: seq<Field>): (r: seq<nat>)
    ensures forall p: int :: p in r <==> 0 <= p < |fields| && fields[p].collectExtras
    ensures forall i, j :: 0 <= i < j < |r| ==> r[i] < r[j]
    ensures r == [] <==> forall p :: 0 <= p < |fields| ==> !fields[p].collectExtras
  {
    if fields == [] then []
    else
      var n := |fields| - 1;
      var r := ExtrasPositions(fields[..n]);
      assert forall i :: 0 <= i < |r| ==> r[i] in r;
      if fields[n].collectExtras then r + [n] else r
  }

  predicate HasExtras(fields: seq<Field>) {
    ExtrasPositions(fields) != []
  }

  predicate AtMostOneExtras(fields: seq<Field>) {
    forall p, q ::
      0 <= p < |fields| && 0 <= q < |fields| && fields[p].collectExtras && fields[q].collectExtras
      ==> p == q
  }

  /** The derive-time check of `derive_deserialize`: a second extras field is
      a compile error. */
  function DeriveDeserialize(input: Input): (r: Result<Input, DeriveError>)
    ensures r.Success? <==> AtMostOneExtras(input.fields)
    ensures r.Success? ==> r.value == input
    ensures r.Failure? ==> r.error == TooManyExtras
  {
    var extras := ExtrasPositions(input.fields);
    if |extras| > 1 then
      assert extras[0] in extras && extras[1] in extras && extras[0] < extras[1];
      Failure(TooManyExtras)
    else
      assert forall p :: p in extras ==> p == extras[0];
      Success(input)
  }

  /** The generated `serialize` type-checks: a skip predicate (always
      `Option::is_none` here) stands on `Option` fields only, and the extras
      field is a map, not an `Option`. */
  predicate SerializeCompiles(fields: seq<Field>) {
    forall p :: 0 <= p < |fields| ==>
      && (fields[p].skipSerializingIf.Some? ==> fields[p].isOption)
      && (fields[p].collectExtras ==> !fields[p].isOption)
  }

  /** The fields sit at their own positions, at most one collects extras, and
      the generated code compiles. `Parse.ParseInput` gives the first. */
  predicate WellFormedLayout(fields: seq<Field>) {
    && (forall p :: 0 <= p < |fields| ==> fields[p].index == p)
    && AtMostOneExtras(fields)
    && SerializeCompiles(fields)
  }

  /** A struct value has one field value per field, the map exactly at the
      extras field. */
  predicate WellTyped(fields: seq<Field>, v: seq<FieldValue>) {
    |v| == |fields| &&
    forall p :: 0 <= p < |fields| ==> (fields[p].collectExtras <==> v[p].ExtrasMap?)
  }

  /** A well-typed value whose extras map holds only negative keys, the keys
      `visit_map` puts there. */
  predicate ValidValue(fields: seq<Field>, v: seq<FieldValue>) {
    WellTyped(fields, v) && NegativeExtras(v) &&
    forall p :: 0 <= p < |v| && v[p].ExtrasMap? ==> StrictlySorted(v[p].entries)
  }

  predicate NegativeExtras(v: seq<FieldValue>) {
    forall p :: 0 <= p < |v| && v[p].ExtrasMap? ==> NegativeKeys(v[p].entries)
  }

  // ---------------------------------------------------------------------------
  // derive_serialize
  // ---------------------------------------------------------------------------

  /** The field's skip predicate holds: `Option::is_none` of a `None`. */
  predicate Skipped(f: Field, x: FieldValue) {
    f.skipSerializingIf.Some? && x == Single(Null)
  }

  /** The entries one field writes (`serialize_fields`): under key
      index + offset unless skipped, or every entry of the extras map. */
  function FieldEntries(f: Field, offset: int, x: FieldValue): seq<Entry>
    requires f.collectExtras <==> x.ExtrasMap?
  {
    if f.skipSerializingIf.Some? then
      if Skipped(f, x) || x.ExtrasMap? then [] else [(f.index + offset, x.value)]
    else if f.collectExtras then x.entries
    else [(f.index + offset, x.value)]
  }

  /** The number one field adds to the announced length
      (`count_serialized_fields`). */
  function FieldCount(f: Field, x: FieldValue): nat
    requires f.collectExtras <==> x.ExtrasMap?
  {
    if f.skipSerializingIf.Some? then
      if Skipped(f, x) || x.ExtrasMap? then 0 else 1
    else if f.collectExtras then |x.entries|
    else 1
  }

  /** The entries of the first k fields, in declaration order. */
  function SerializedEntries(fields: seq<Field>, offset: int, v: seq<FieldValue>, k: nat): seq<Entry>
    requires WellTyped(fields, v) && k <= |fields|
  {
    if k == 0 then []
    else SerializedEntries(fields, offset, v, k - 1) + FieldEntries(fields[k - 1], offset, v[k - 1])
  }

  /** The sum `0 + ...` of the counts of the first k fields. */
  function SerializedCount(fields: seq<Field>, v: seq<FieldValue>, k: nat): nat
    requires WellTyped(fields, v) && k <= |fields|
  {
    if k == 0 then 0
    else SerializedCount(fields, v, k - 1) + FieldCount(fields[k - 1], v[k - 1])
  }

  /** The generated `serialize`: `serialize_map(Some(count))`, or
      `serialize_map(None)` under `emit_length = false`, then every field's
      entries. */
  function Serialize(input: Input, v: seq<FieldValue>): Encoded
    requires WellTyped(input.fields, v)
  {
    var n := |input.fields|;
    Encoded(if input.attrs.emitLength then Some(SerializedCount(input.fields, v, n)) else None,
            SerializedEntries(input.fields, input.attrs.offset, v, n))
  }

  // ---------------------------------------------------------------------------
  // derive_deserialize: visit_map
  // ---------------------------------------------------------------------------

  /** The match arm of a field: every field but the extras field has one, for
      key index + offset. */
  predicate Matches(f: Field, offset: int, key: int) {
    !f.collectExtras && f.index + offset == key
  }

  /** The first field from position p on whose arm matches the key. */
  function MatchFrom(fields: seq<Field>, offset: int, key: int, p: nat): (r: Option<nat>)
    requires p <= |fields|
    ensures r.Some? ==> p <= r.value < |fields| && Matches(fields[r.value], offset, key)
    ensures r.Some? ==> forall q :: p <= q < r.value ==> !Matches(fields[q], offset, key)
    ensures r.None? ==> forall q :: p <= q < |fields| ==> !Matches(fields[q], offset, key)
    decreases |fields| - p
  {
    if p == |fields| then None
    else if Matches(fields[p], offset, key) then Some(p)
    else MatchFrom(fields, offset, key, p + 1)
  }

  /** The field arm `match` picks for a key, if any. */
  function MatchField(fields: seq<Field>, offset: int, key: int): Option<nat>
  {
    MatchFrom(fields, offset, key, 0)
  }

  /** The locals of `visit_map`: one `Option` per field (None until its key is
      read) and the extras map. */
  datatype DecodeState = DecodeState(slots: seq<Option<Value>>, extras: seq<Entry>)

  predicate ValidState(fields: seq<Field>, st: DecodeState) {
    |st.slots| == |fields| && StrictlySorted(st.extras) && NegativeKeys(st.extras)
  }

  /** The state before the loop (`none_fields`, and `Default::default()` for
      the extras map). */
  function Initial(fields: seq<Field>): (st: DecodeState)
    ensures ValidState(fields, st)
    ensures forall p :: 0 <= p < |fields| ==> st.slots[p].None?
    ensures st.extras == []
  {
    DecodeState(seq(|fields|, _ => None), [])
  }

  /** One turn of the loop: the key's field arm, else the `x if x < 0` arm
      (insert into the extras map, or drop the value when there is no extras
      field), else the catch-all error. */
  function Step(fields: seq<Field>, offset: int, st: DecodeState, e: Entry): (r: Result<DecodeState, DeError>)
    requires ValidState(fields, st)
    ensures r.Success? ==> ValidState(fields, r.value)
  {
    match MatchField(fields, offset, e.0)
    case Some(p) =>
      if st.slots[p].Some? then Failure(Duplicate(fields[p].name))
      else Success(st.(slots := st.slots[p := Some(e.1)]))
    case None =>
      if e.0 < 0 then
        if HasExtras(fields) then Success(st.(extras := Insert(st.extras, e.0, e.1)))
        else Success(st)
      else Failure(Duplicate("inexistent field index"))
  }

  /** The loop over the entries, stopping at the first error. */
  function DecodeEntries(fields: seq<Field>, offset: int, st: DecodeState, entries: seq<Entry>)
    : (r: Result<DecodeState, DeError>)
    requires ValidState(fields, st)
    ensures r.Success? ==> ValidState(fields, r.value)
    decreases |entries|
  {
    if entries == [] then Success(st)
    else
      match Step(fields, offset, st, entries[0])
      case Failure(e) => Failure(e)
      case Success(next) => DecodeEntries(fields, offset, next, entries[1..])
  }

  /** The field value `unwrap_expected_fields` makes of a slot. */
  function UnwrapField(f: Field, slot: Option<Value>, extras: seq<Entry>): (r: Result<FieldValue, DeError>)
    ensures r.Success? ==> (f.collectExtras <==> r.value.ExtrasMap?)
    ensures r.Success? && f.collectExtras ==> r.value.entries == extras
  {
    if f.collectExtras then Success(ExtrasMap(extras))
    else if slot.Some? then Success(Single(slot.value))
    else
      match MissingField(f.name, f.isOption)
      case Failure(e) => Failure(e)
      case Success(d) => Success(Single(d))
  }

  /** `unwrap_expected_fields` from position p on, in declaration order,
      returning at the first error. */
  function Unwrap(fields: seq<Field>, st: DecodeState, p: nat): (r: Result<seq<FieldValue>, DeError>)
    requires |st.slots| == |fields| && p <= |fields|
    ensures r.Success? ==> |r.value| == |fields| - p
    ensures r.Success? ==> forall q :: p <= q < |fields| ==>
              (fields[q].collectExtras <==> r.value[q - p].ExtrasMap?) &&
              (fields[q].collectExtras ==> r.value[q - p].entries == st.extras)
    decreases |fields| - p
  {
    if p == |fields| then Success([])
    else
      match UnwrapField(fields[p], st.slots[p], st.extras)
      case Failure(e) => Failure(e)
      case Success(x) =>
        match Unwrap(fields, st, p + 1)
        case Failure(e) => Failure(e)
        case Success(rest) => Success([x] + rest)
  }

  /** The generated `deserialize` on a map with the given entries. The loop
      is generated only for a struct with fields, so an empty struct reads no
      key at all. */
  function Deserialize(input: Input, entries: seq<Entry>): (r: Result<seq<FieldValue>, DeError>)
    requires AtMostOneExtras(input.fields)
    ensures input.fields == [] ==> r == Success([])
    ensures r.Success? ==> ValidValue(input.fields, r.value)
  {
    var fields := input.fields;
    if fields == [] then Unwrap(fields, Initial(fields), 0)
    else
      match DecodeEntries(fields, input.attrs.offset, Initial(fields), entries)
      case Failure(e) => Failure(e)
      case Success(st) => Unwrap(fields, st, 0)
  }

  /** The generated `visit_map`, reading the entries one by one. */
  method VisitMap(input: Input, entries: seq<Entry>) returns (r: Result<seq<FieldValue>, DeError>)
    requires AtMostOneExtras(input.fields)
    ensures r == Deserialize(input, entries)
  {
    var fields := input.fields;
    var offset := input.attrs.offset;
    var slots := Initial(fields).slots;
    var extras := Initial(fields).extras;
    var hasExtras := HasExtras(fields);
    if fields != [] {
      var i := 0;
      while i < |entries|
        invariant 0 <= i <= |entries|
        invariant ValidState(fields, DecodeState(slots, extras))
        invariant DecodeEntries(fields, offset, Initial(fields), entries)
               == DecodeEntries(fields, offset, DecodeState(slots, extras), entries[i..])
      {
        assert entries[i..][1..] == entries[i + 1..];
        var (key, value) := entries[i];
        var arm := MatchField(fields, offset, key);
        if arm.Some? {
          if slots[arm.value].Some? {
            return Failure(Duplicate(fields[arm.value].name));
          }
          slots := slots[arm.value := Some(value)];
        } else if key < 0 {
          if hasExtras {
            extras := Insert(extras, key, value);
          }
        } else {
          return Failure(Duplicate("inexistent field index"));
        }
        i := i + 1;
      }
      assert entries[i..] == [];
    }
    r := Unwrap(fields, DecodeState(slots, extras), 0);
  }

  // ---------------------------------------------------------------------------
  // Properties of the extras map
  // ---------------------------------------------------------------------------

  /** Inserting a key above every key present appends the entry. */
  lemma {:induction false} InsertAboveAll(m: seq<Entry>, k: int, v: Value)
    requires StrictlySorted(m)
    requires forall i :: 0 <= i < |m| ==> m[i].0 < k
    ensures Insert(m, k, v) == m + [(k, v)]
  {
    if m != [] {
      assert k > m[0].0;
      InsertAboveAll(m[1..], k, v);
      assert Insert(m, k, v) == [m[0]] + Insert(m[1..], k, v);
      assert [m[0]] + (m[1..] + [(k, v)]) == m + [(k, v)];
    }
  }

  /** A second insert under the same key replaces the first one's value. */
  lemma {:induction false} InsertTwice(m: seq<Entry>, k: int, v1: Value, v2: Value)
    requires StrictlySorted(m)
    ensures Insert(Insert(m, k, v1), k, v2) == Insert(m, k, v2)
  {
    if m != [] && k > m[0].0 {
      var r1 := Insert(m[1..], k, v1);
      InsertTwice(m[1..], k, v1, v2);
      assert Insert(m, k, v1) == [m[0]] + r1;
      assert ([m[0]] + r1)[1..] == r1;
    }
  }

  // ---------------------------------------------------------------------------
  // Properties of serialize
  // ---------------------------------------------------------------------------

  lemma {:induction false} CountIsEntries(fields: seq<Field>, offset: int, v: seq<FieldValue>, k: nat)
    requires WellTyped(fields, v) && k <= |fields|
    ensures SerializedCount(fields, v, k) == |SerializedEntries(fields, offset, v, k)|
  {
    if k > 0 {
      CountIsEntries(fields, offset, v, k - 1);
    }
  }

  /** The length announced to `serialize_map` is the number of entries that
      follow, or absent under `emit_length = false`. */
  lemma AnnouncedLengthIsEntryCount(input: Input, v: seq<FieldValue>)
    requires WellTyped(input.fields, v)
    ensures input.attrs.emitLength ==>
              Serialize(input, v).length == Some(|Serialize(input, v).entries|)
    ensures !input.attrs.emitLength ==> Serialize(input, v).length.None?
  {
    CountIsEntries(input.fields, input.attrs.offset, v, |input.fields|);
  }

  /** The values a list of entries holds under a key, in order. */
  function ValuesAt(m: seq<Entry>, key: int): seq<Value> {
    if m == [] then []
    else (if m[0].0 == key then [m[0].1] else []) + ValuesAt(m[1..], key)
  }

  lemma {:induction false} ValuesAtConcat(a: seq<Entry>, b: seq<Entry>, key: int)
    ensures ValuesAt(a + b, key) == ValuesAt(a, key) + ValuesAt(b, key)
    decreases |a|
  {
    if a == [] {
      assert a + b == b;
    } else {
      var ab := a + b;
      var head := if a[0].0 == key then [a[0].1] else [];
      assert ab[0] == a[0] && ab[1..] == a[1..] + b;
      assert ValuesAt(ab, key) == head + ValuesAt(a[1..] + b, key);
      ValuesAtConcat(a[1..], b, key);
      assert ValuesAt(a, key) == head + ValuesAt(a[1..], key);
    }
  }

  lemma {:induction false} ValuesAtAbsent(m: seq<Entry>, key: int)
    requires forall i :: 0 <= i < |m| ==> m[i].0 != key
    ensures ValuesAt(m, key) == []
  {
    if m != [] {
      ValuesAtAbsent(m[1..], key);
    }
  }

  /** What field q writes under field p's key. */
  lemma ValuesAtField(fields: seq<Field>, offset: int, v: seq<FieldValue>, p: nat, q: nat)
    requires WellFormedLayout(fields) && WellTyped(fields, v) && ExtrasKeysFree(fields, offset, v)
    requires p < |fields| && !fields[p].collectExtras && q < |fields|
    ensures q != p || Skipped(fields[p], v[p]) ==> ValuesAt(FieldEntries(fields[q], offset, v[q]), p + offset) == []
    ensures q == p && !Skipped(fields[p], v[p]) ==>
              ValuesAt(FieldEntries(fields[q], offset, v[q]), p + offset) == [v[p].value]
  {
    var fe := FieldEntries(fields[q], offset, v[q]);
    if fields[q].collectExtras {
      assert Matches(fields[p], offset, p + offset);
      forall i | 0 <= i < |fe|
        ensures fe[i].0 != p + offset
      {
        assert fe[i] == v[q].entries[i];
        assert MatchField(fields, offset, fe[i].0).None?;
      }
      ValuesAtAbsent(fe, p + offset);
    } else if fe != [] {
      assert fe == [(q + offset, v[q].value)];
      assert fe[1..] == [];
    }
  }

  /** When no field but p writes under `key`, the first k fields write there
      what field p writes, or nothing when p is not among them. */
  lemma {:induction false} ValuesAtPrefix(fields: seq<Field>, offset: int, v: seq<FieldValue>, p: nat, key: int, k: nat)
    requires WellTyped(fields, v) && p < |fields| && k <= |fields|
    requires forall q :: 0 <= q < |fields| && q != p ==> ValuesAt(FieldEntries(fields[q], offset, v[q]), key) == []
    ensures ValuesAt(SerializedEntries(fields, offset, v, k), key)
         == if p < k then ValuesAt(FieldEntries(fields[p], offset, v[p]), key) else []
  {
    if k > 0 {
      var j := k - 1;
      var front := SerializedEntries(fields, offset, v, j);
      var last := FieldEntries(fields[j], offset, v[j]);
      assert SerializedEntries(fields, offset, v, k) == front + last;
      ValuesAtPrefix(fields, offset, v, p, key, j);
      ValuesAtConcat(front, last, key);
      var a, b := ValuesAt(front, key), ValuesAt(last, key);
      if p == j {
        assert a == [];
        assert a + b == b;
      } else {
        assert b == [];
        assert a + b == a;
      }
    }
  }

  /** A step of FieldWrittenUnlessSkipped: no field but p writes under p's key. */
  lemma OtherFieldsSilent(fields: seq<Field>, offset: int, v: seq<FieldValue>, p: nat)
    requires WellFormedLayout(fields) && WellTyped(fields, v) && ExtrasKeysFree(fields, offset, v)
    requires p < |fields| && !fields[p].collectExtras
    ensures forall q :: 0 <= q < |fields| && q != p ==> ValuesAt(FieldEntries(fields[q], offset, v[q]), p + offset) == []
  {
    forall q | 0 <= q < |fields| && q != p
      ensures ValuesAt(FieldEntries(fields[q], offset, v[q]), p + offset) == []
    {
      ValuesAtField(fields, offset, v, p, q);
    }
  }

  /** Field p (not the extras field) is written exactly once, under key
      index + offset and with its own value, unless its skip predicate holds,
      in which case nothing is written under that key; this needs the extras
      map to hold no field key. */
  lemma FieldWrittenUnlessSkipped(input: Input, v: seq<FieldValue>, p: nat)
    requires WellFormedLayout(input.fields) && WellTyped(input.fields, v)
    requires ExtrasKeysFree(input.fields, input.attrs.offset, v)
    requires p < |input.fields| && !input.fields[p].collectExtras
    ensures ValuesAt(Serialize(input, v).entries, p + input.attrs.offset)
         == if Skipped(input.fields[p], v[p]) then [] else [v[p].value]
  {
    var fields, offset := input.fields, input.attrs.offset;
    OtherFieldsSilent(fields, offset, v, p);
    var key := p + offset;
    ValuesAtField(fields, offset, v, p, p);
    ValuesAtPrefix(fields, offset, v, p, key, |fields|);
    assert Serialize(input, v).entries == SerializedEntries(fields, offset, v, |fields|);
    assert ValuesAt(Serialize(input, v).entries, key) == ValuesAt(FieldEntries(fields[p], offset, v[p]), key);
  }

  // ---------------------------------------------------------------------------
  // Round trip: deserialize(serialize(v)) == v
  // ---------------------------------------------------------------------------

  /** A field whose value ends up in its slot. */
  predicate Written(f: Field, x: FieldValue) {
    !f.collectExtras && !Skipped(f, x)
  }

  /** The extras map as the first k fields leave it. */
  function ExtrasUpTo(fields: seq<Field>, v: seq<FieldValue>, k: nat): (r: seq<Entry>)
    requires ValidValue(fields, v) && k <= |fields|
    ensures StrictlySorted(r) && NegativeKeys(r)
  {
    if k == 0 then []
    else if fields[k - 1].collectExtras then v[k - 1].entries
    else ExtrasUpTo(fields, v, k - 1)
  }

  /** The decoder state after reading what the first k fields wrote. */
  function Expected(fields: seq<Field>, v: seq<FieldValue>, k: nat): (st: DecodeState)
    requires ValidValue(fields, v) && k <= |fields|
    ensures ValidState(fields, st)
  {
    DecodeState(seq(|fields|, p requires 0 <= p < |fields| =>
                      if p < k && Written(fields[p], v[p]) then Some(v[p].value) else None),
                ExtrasUpTo(fields, v, k))
  }

  lemma {:induction false} DecodeEntriesConcat(fields: seq<Field>, offset: int, st: DecodeState,
                                               a: seq<Entry>, b: seq<Entry>)
    requires ValidState(fields, st)
    ensures DecodeEntries(fields, offset, st, a + b) ==
            match DecodeEntries(fields, offset, st, a)
            case Failure(e) => Failure(e)
            case Success(mid) => DecodeEntries(fields, offset, mid, b)
    decreases |a|
  {
    if a == [] {
      assert a + b == b;
    } else {
      assert (a + b)[0] == a[0];
      assert (a + b)[1..] == a[1..] + b;
      match Step(fields, offset, st, a[0])
      case Failure(_) =>
      case Success(next) => DecodeEntriesConcat(fields, offset, next, a[1..], b);
    }
  }

  /** No field arm matches a negative key when offset >= 0. */
  lemma NegativeKeyMatchesNoField(fields: seq<Field>, offset: int, key: int)
    requires offset >= 0 && key < 0
    ensures MatchField(fields, offset, key).None?
  {
  }

  /** No key of an extras map is a field arm's key, so every extras entry
      reaches the `x if x < 0` arm instead of a field arm. */
  predicate ExtrasKeysFree(fields: seq<Field>, offset: int, v: seq<FieldValue>) {
    forall p, i :: 0 <= p < |v| && v[p].ExtrasMap? && 0 <= i < |v[p].entries| ==>
      MatchField(fields, offset, v[p].entries[i].0).None?
  }

  /** With a non-negative offset every field key is non-negative, so the
      negative extras keys are free of them. */
  lemma NonNegativeOffsetFreesExtras(fields: seq<Field>, offset: int, v: seq<FieldValue>)
    requires offset >= 0 && NegativeExtras(v)
    ensures ExtrasKeysFree(fields, offset, v)
  {
    forall p, i | 0 <= p < |v| && v[p].ExtrasMap? && 0 <= i < |v[p].entries|
      ensures MatchField(fields, offset, v[p].entries[i].0).None?
    {
      NegativeKeyMatchesNoField(fields, offset, v[p].entries[i].0);
    }
  }

  /** Reading ascending negative keys into the extras map appends them. */
  lemma {:induction false} ReadExtras(fields: seq<Field>, offset: int, st: DecodeState, xs: seq<Entry>)
    requires ValidState(fields, st) && HasExtras(fields)
    requires forall i :: 0 <= i < |xs| ==> MatchField(fields, offset, xs[i].0).None?
    requires StrictlySorted(st.extras + xs) && NegativeKeys(xs)
    ensures DecodeEntries(fields, offset, st, xs) == Success(st.(extras := st.extras + xs))
    decreases |xs|
  {
    if xs == [] {
      assert st.extras + xs == st.extras;
    } else {
      assert MatchField(fields, offset, xs[0].0).None?;
      assert forall i :: 0 <= i < |st.extras| ==> (st.extras + xs)[i] == st.extras[i];
      assert (st.extras + xs)[|st.extras|] == xs[0];
      InsertAboveAll(st.extras, xs[0].0, xs[0].1);
      var next := st.(extras := st.extras + [xs[0]]);
      assert next.extras + xs[1..] == st.extras + xs;
      ReadExtras(fields, offset, next, xs[1..]);
    }
  }

  lemma {:induction false} ExtrasUpToEmpty(fields: seq<Field>, v: seq<FieldValue>, k: nat)
    requires ValidValue(fields, v) && k <= |fields|
    requires forall q :: 0 <= q < k ==> !fields[q].collectExtras
    ensures ExtrasUpTo(fields, v, k) == []
  {
    if k > 0 {
      ExtrasUpToEmpty(fields, v, k - 1);
    }
  }

  lemma {:induction false} ExtrasUpToIs(fields: seq<Field>, v: seq<FieldValue>, k: nat, e: nat)
    requires ValidValue(fields, v) && AtMostOneExtras(fields) && e < k <= |fields|
    requires fields[e].collectExtras
    ensures ExtrasUpTo(fields, v, k) == v[e].entries
  {
    if k - 1 != e {
      ExtrasUpToIs(fields, v, k - 1, e);
    }
  }

  /** Reading what field k - 1 wrote moves the decoder from Expected(k - 1)
      to Expected(k). */
  lemma DecodeField(fields: seq<Field>, offset: int, v: seq<FieldValue>, k: nat)
    requires WellFormedLayout(fields) && ValidValue(fields, v) && ExtrasKeysFree(fields, offset, v) && 0 < k <= |fields|
    ensures DecodeEntries(fields, offset, Expected(fields, v, k - 1), FieldEntries(fields[k - 1], offset, v[k - 1]))
         == Success(Expected(fields, v, k))
  {
    var j := k - 1;
    var st, st' := Expected(fields, v, j), Expected(fields, v, k);
    var fe := FieldEntries(fields[j], offset, v[j]);
    if fields[j].collectExtras {
      ExtrasUpToEmpty(fields, v, j);
      assert st.slots == st'.slots;
      assert st.extras + fe == fe;
      assert fe == v[j].entries;
      forall i | 0 <= i < |fe|
        ensures MatchField(fields, offset, fe[i].0).None?
      {
        assert fe[i] == v[j].entries[i];
      }
      ReadExtras(fields, offset, st, fe);
    } else if Skipped(fields[j], v[j]) {
      assert st.slots == st'.slots;
    } else {
      assert Matches(fields[j], offset, j + offset);
      var arm := MatchField(fields, offset, j + offset);
      assert arm == Some(j);
      assert st'.slots == st.slots[j := Some(v[j].value)];
      assert fe == [(j + offset, v[j].value)];
      assert fe[1..] == [];
    }
  }

  /** Two successful reads in a row are one read of the concatenation. */
  lemma DecodeChain(fields: seq<Field>, offset: int, st: DecodeState, a: seq<Entry>, b: seq<Entry>,
                    mid: DecodeState, fin: DecodeState)
    requires ValidState(fields, st) && ValidState(fields, mid)
    requires DecodeEntries(fields, offset, st, a) == Success(mid)
    requires DecodeEntries(fields, offset, mid, b) == Success(fin)
    ensures DecodeEntries(fields, offset, st, a + b) == Success(fin)
  {
    DecodeEntriesConcat(fields, offset, st, a, b);
  }

  lemma {:induction false} DecodePrefix(fields: seq<Field>, offset: int, v: seq<FieldValue>, k: nat)
    requires WellFormedLayout(fields) && ValidValue(fields, v) && ExtrasKeysFree(fields, offset, v) && k <= |fields|
    ensures DecodeEntries(fields, offset, Expected(fields, v, 0), SerializedEntries(fields, offset, v, k))
         == Success(Expected(fields, v, k))
  {
    if k > 0 {
      var front := SerializedEntries(fields, offset, v, k - 1);
      var last := FieldEntries(fields[k - 1], offset, v[k - 1]);
      assert SerializedEntries(fields, offset, v, k) == front + last;
      DecodePrefix(fields, offset, v, k - 1);
      DecodeField(fields, offset, v, k);
      DecodeChain(fields, offset, Expected(fields, v, 0), front, last, Expected(fields, v, k - 1), Expected(fields, v, k));
    }
  }

  lemma {:induction false} UnwrapExpected(fields: seq<Field>, v: seq<FieldValue>, p: nat)
    requires WellFormedLayout(fields) && ValidValue(fields, v) && p <= |fields|
    ensures Unwrap(fields, Expected(fields, v, |fields|), p) == Success(v[p..])
    decreases |fields| - p
  {
    if p < |fields| {
      var st := Expected(fields, v, |fields|);
      UnwrapExpected(fields, v, p + 1);
      if fields[p].collectExtras {
        ExtrasUpToIs(fields, v, |fields|, p);
      }
      assert UnwrapField(fields[p], st.slots[p], st.extras) == Success(v[p]);
      assert [v[p]] + v[p + 1..] == v[p..];
    }
  }

  /** Without an extras field there are no extras keys to collide, whatever
      the offset. */
  lemma NoExtrasFieldFreesExtras(fields: seq<Field>, offset: int, v: seq<FieldValue>)
    requires WellTyped(fields, v) && !HasExtras(fields)
    ensures ExtrasKeysFree(fields, offset, v)
  {
    forall p | 0 <= p < |v|
      ensures !v[p].ExtrasMap?
    {
      assert !fields[p].collectExtras;
    }
  }

  /** Deserializing what `serialize` wrote gives back the struct value, when
      no extras key collides with a field key (always so for a non-negative
      offset, see NonNegativeOffsetFreesExtras, and for a layout without an
      extras field). */
  lemma RoundTrip(input: Input, v: seq<FieldValue>)
    requires WellFormedLayout(input.fields) && ValidValue(input.fields, v)
    requires ExtrasKeysFree(input.fields, input.attrs.offset, v)
    ensures Deserialize(input, Serialize(input, v).entries) == Success(v)
  {
    var fields := input.fields;
    var n := |fields|;
    if n > 0 {
      assert Expected(fields, v, 0) == Initial(fields);
      DecodePrefix(fields, input.attrs.offset, v, n);
      UnwrapExpected(fields, v, 0);
      assert v[0..] == v;
    }
  }

  // ---------------------------------------------------------------------------
  // Properties of visit_map
  // ---------------------------------------------------------------------------

  /** A slot, once filled, stays filled. */
  lemma {:induction false} SlotsStayFilled(fields: seq<Field>, offset: int, st: DecodeState,
                                           entries: seq<Entry>, p: nat)
    requires ValidState(fields, st) && p < |fields| && st.slots[p].Some?
    requires DecodeEntries(fields, offset, st, entries).Success?
    ensures DecodeEntries(fields, offset, st, entries).value.slots[p].Some?
    decreases |entries|
  {
    if entries != [] {
      var next := Step(fields, offset, st, entries[0]).value;
      SlotsStayFilled(fields, offset, next, entries[1..], p);
    }
  }

  /** A key that reaches a field's arm a second time is rejected with
      `duplicate_field` naming that field, whatever follows. */
  lemma DuplicateKeyFails(input: Input, before: seq<Entry>, key: int, v1: Value,
                          between: seq<Entry>, v2: Value, after: seq<Entry>)
    requires AtMostOneExtras(input.fields) && input.fields != []
    requires MatchField(input.fields, input.attrs.offset, key).Some?
    requires DecodeEntries(input.fields, input.attrs.offset, Initial(input.fields),
                           before + [(key, v1)] + between).Success?
    ensures Deserialize(input, before + [(key, v1)] + between + [(key, v2)] + after)
         == Failure(Duplicate(input.fields[MatchField(input.fields, input.attrs.offset, key).value].name))
  {
    var fields, offset, init := input.fields, input.attrs.offset, Initial(input.fields);
    var p := MatchField(fields, offset, key).value;
    var first := before + [(key, v1)] + between;
    DecodeEntriesConcat(fields, offset, init, before, [(key, v1)] + between);
    assert first == before + ([(key, v1)] + between);
    var s1 := DecodeEntries(fields, offset, init, before).value;
    assert ([(key, v1)] + between)[1..] == between;
    var s2 := Step(fields, offset, s1, (key, v1)).value;
    assert s2.slots[p].Some?;
    SlotsStayFilled(fields, offset, s2, between, p);
    var s3 := DecodeEntries(fields, offset, init, first).value;
    DecodeEntriesConcat(fields, offset, init, first, [(key, v2)] + after);
    assert first + [(key, v2)] + after == first + ([(key, v2)] + after);
    assert Step(fields, offset, s3, (key, v2)) == Failure(Duplicate(fields[p].name));
  }

  /** A non-negative key that matches no field aborts decoding with
      `duplicate_field("inexistent field index")`. */
  lemma UnknownKeyFails(input: Input, before: seq<Entry>, key: int, value: Value, after: seq<Entry>)
    requires AtMostOneExtras(input.fields) && input.fields != []
    requires key >= 0 && MatchField(input.fields, input.attrs.offset, key).None?
    requires DecodeEntries(input.fields, input.attrs.offset, Initial(input.fields), before).Success?
    ensures Deserialize(input, before + [(key, value)] + after) == Failure(Duplicate("inexistent field index"))
  {
    DecodeEntriesConcat(input.fields, input.attrs.offset, Initial(input.fields), before, [(key, value)] + after);
    assert before + [(key, value)] + after == before + ([(key, value)] + after);
  }

  /** Without an extras field, a negative key that matches no field is read
      and thrown away: decoding goes on as if the entry were absent. */
  lemma NegativeKeyIgnored(input: Input, before: seq<Entry>, key: int, value: Value, after: seq<Entry>)
    requires AtMostOneExtras(input.fields) && !HasExtras(input.fields)
    requires key < 0 && MatchField(input.fields, input.attrs.offset, key).None?
    ensures Deserialize(input, before + [(key, value)] + after) == Deserialize(input, before + after)
  {
    var fields, offset, init := input.fields, input.attrs.offset, Initial(input.fields);
    if fields != [] {
      DecodeEntriesConcat(fields, offset, init, before, [(key, value)] + after);
      DecodeEntriesConcat(fields, offset, init, before, after);
      assert before + [(key, value)] + after == before + ([(key, value)] + after);
      assert ([(key, value)] + after)[1..] == after;
    }
  }

  /** With an extras field, a negative key that matches no field goes into
      the extras map; when it comes twice the later value is kept and no
      error is raised. */
  lemma RepeatedExtrasKeyKeepsLast(input: Input, before: seq<Entry>, key: int, v1: Value, v2: Value,
                                   after: seq<Entry>)
    requires AtMostOneExtras(input.fields) && HasExtras(input.fields)
    requires key < 0 && MatchField(input.fields, input.attrs.offset, key).None?
    ensures Deserialize(input, before + [(key, v1), (key, v2)] + after)
         == Deserialize(input, before + [(key, v2)] + after)
  {
    var fields, offset, init := input.fields, input.attrs.offset, Initial(input.fields);
    DecodeEntriesConcat(fields, offset, init, before, [(key, v1), (key, v2)] + after);
    DecodeEntriesConcat(fields, offset, init, before, [(key, v2)] + after);
    assert before + [(key, v1), (key, v2)] + after == before + ([(key, v1), (key, v2)] + after);
    assert before + [(key, v2)] + after == before + ([(key, v2)] + after);
    assert ([(key, v1), (key, v2)] + after)[1..] == [(key, v2)] + after;
    assert ([(key, v2)] + after)[1..] == after;
    match DecodeEntries(fields, offset, init, before)
    case Failure(_) =>
    case Success(st) =>
      InsertTwice(st.extras, key, v1, v2);
  }

  /** A field that is neither the extras field nor an `Option`. */
  predicate Mandatory(f: Field) {
    !f.collectExtras && !f.isOption
  }

  lemma {:induction false} UnwrapEmpty(fields: seq<Field>, p: nat)
    requires p <= |fields|
    ensures Unwrap(fields, Initial(fields), p).Success? <==>
              forall q :: p <= q < |fields| ==> !Mandatory(fields[q])
    ensures Unwrap(fields, Initial(fields), p).Failure? ==>
              exists q :: p <= q < |fields| && Mandatory(fields[q])
                && (forall q' :: p <= q' < q ==> !Mandatory(fields[q']))
                && Unwrap(fields, Initial(fields), p).error == Missing(fields[q].name)
    ensures Unwrap(fields, Initial(fields), p).Success? ==>
              forall q :: p <= q < |fields| ==>
                Unwrap(fields, Initial(fields), p).value[q - p]
                  == if fields[q].collectExtras then ExtrasMap([]) else Single(Null)
    decreases |fields| - p
  {
    if p < |fields| {
      var st := Initial(fields);
      var f := fields[p];
      assert st.slots[p] == None && st.extras == [];
      UnwrapEmpty(fields, p + 1);
      if Mandatory(f) {
        assert UnwrapField(f, None, []) == Failure(Missing(f.name));
        assert Unwrap(fields, st, p) == Failure(Missing(f.name));
      } else {
        var x := if f.collectExtras then ExtrasMap([]) else Single(Null);
        assert UnwrapField(f, None, []) == Success(x);
        match Unwrap(fields, st, p + 1)
        case Failure(e) =>
          assert Unwrap(fields, st, p) == Failure(e);
          var q :| p + 1 <= q < |fields| && Mandatory(fields[q])
                   && (forall q' :: p + 1 <= q' < q ==> !Mandatory(fields[q']))
                   && e == Missing(fields[q].name);
          assert forall q' :: p <= q' < q ==> !Mandatory(fields[q']);
        case Success(rest) =>
          assert Unwrap(fields, st, p) == Success([x] + rest);
      }
    }
  }

  /** A map with no entries decodes when every field but the extras field is
      an `Option`, each then `None` and the extras map empty; otherwise the
      first other field is reported with `missing_field`. */
  lemma NoEntries(input: Input)
    requires AtMostOneExtras(input.fields) && input.fields != []
    ensures Deserialize(input, []).Success? <==>
              forall q :: 0 <= q < |input.fields| ==> !Mandatory(input.fields[q])
    ensures Deserialize(input, []).Success? ==>
              forall q :: 0 <= q < |input.fields| ==>
                Deserialize(input, []).value[q]
                  == if input.fields[q].collectExtras then ExtrasMap([]) else Single(Null)
    ensures Deserialize(input, []).Failure? ==>
              exists q :: 0 <= q < |input.fields| && Mandatory(input.fields[q])
                && (forall q' :: 0 <= q' < q ==> !Mandatory(input.fields[q']))
                && Deserialize(input, []).error == Missing(input.fields[q].name)
  {
    UnwrapEmpty(input.fields, 0);
  }
}
