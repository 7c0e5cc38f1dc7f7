/** The attribute parser of the `serde-indexed` derive macros: container
    attributes (`offset`, `emit_length`), field attributes
    (`skip_serializing_if`, `extras`) and the conversion of a struct's
    declaration into the field list the generated code is built from.
    Token streams are replaced by an abstract syntax of attributes. */
module Parse {
  import opened Wrappers

  /** Range of Rust's `isize` on a 64-bit target. */
  const IsizeMin: int := -0x8000_0000_0000_0000
  const IsizeMax: int := 0x7FFF_FFFF_FFFF_FFFF

  predicate InIsizeRange(n: int) {
    IsizeMin <= n <= IsizeMax
  }

  datatype Lit =
    | IntLit(number: int)                  // an unsuffixed integer literal, possibly negated
    | BoolLit(value: bool)
    | StrLit(text: string, isExprPath: bool) // `isExprPath`: the text parses as a Rust expression path
    | OtherLit

  /** One item inside `#[path(...)]`. */
  datatype NestedMeta =
    | NameValue(name: string, lit: Lit)   // `name = lit`
    | Path(name: string)                   // a bare path such as `extras`
    | OtherNested                          // a nested list or a bare literal

  /** What `Attribute::parse_meta` makes of an attribute's tokens. */
  datatype Meta =
    | List(nested: seq<NestedMeta>)   // `#[path(item, ...)]`
    | NotList                         // `#[path]` or `#[path = lit]`

  /** An attribute; `meta` is None when its tokens do not form a Meta. */
  datatype Attribute = Attribute(path: string, meta: Option<Meta>)

  datatype FieldType = OptionType | OtherType
  datatype AstField = AstField(ident: string, ty: FieldType, attrs: seq<Attribute>)
  datatype Fields = Named(named: seq<AstField>) | Unnamed | Unit
  datatype Data = Struct(fields: Fields) | Enum | Union
  datatype DeriveInput = DeriveInput(ident: string, attrs: seq<Attribute>, data: Data)

  /** Container attributes. */
  datatype StructAttrs = StructAttrs(offset: int, emitLength: bool)

  /** A parsed field (`name` is the Rust `label`); `skipSerializingIf` holds the predicate's path text. */
  datatype Field = Field(name: string, index: nat, skipSerializingIf: Option<string>,
                         collectExtras: bool, isOption: bool)

  datatype Input = Input(ident: string, attrs: StructAttrs, fields: seq<Field>)

  datatype DeriveError =
    | InputMustBeStruct        // "input must be a struct"
    | FieldsMustBeNamed        // "struct fields must be named"
    | MalformedAttribute       // `parse_meta` failed on a container attribute
    | OffsetOutOfRange         // `base10_parse::<isize>` overflowed
    | UnknownFieldAttribute    // the panic "unknown field attribute"
    | UnparsableSkipPath       // the `unwrap` panic on a `skip_serializing_if` string that is no path
    | TooManyExtras            // "At most one field can be annotated with #[serde_indexed(extras)]"

  /** `StructAttrs::default()` */
  const DefaultStructAttrs := StructAttrs(0, true)

  /** `#[serde(skip_serializing_if = "Option::is_none")]` */
  const SkipIfNone := Attribute("serde", Some(List([NameValue("skip_serializing_if", StrLit("Option::is_none", true))])))

  // ---------------------------------------------------------------------------
  // Container attributes: parse_meta and parse_attrs
  // ---------------------------------------------------------------------------

  predicate IsOffsetInt(item: NestedMeta) {
    item.NameValue? && item.name == "offset" && item.lit.IntLit?
  }

  predicate IsEmitLengthBool(item: NestedMeta) {
    item.NameValue? && item.name == "emit_length" && item.lit.BoolLit?
  }

  /** The effect of one nested item on the container attributes. */
  function ApplyNested(attrs: StructAttrs, item: NestedMeta): Result<StructAttrs, DeriveError> {
    if IsOffsetInt(item) then
      if InIsizeRange(item.lit.number) then Success(attrs.(offset := item.lit.number))
      else Failure(OffsetOutOfRange)
    else if IsEmitLengthBool(item) then Success(attrs.(emitLength := item.lit.value))
    else Success(attrs)
  }

  /** The nested items applied in order, stopping at the first error. */
  function NestedApplied(attrs: StructAttrs, nested: seq<NestedMeta>): Result<StructAttrs, DeriveError> {
    if nested == [] then Success(attrs)
    else
      match NestedApplied(attrs, nested[..|nested| - 1])
      case Failure(e) => Failure(e)
      case Success(a) => ApplyNested(a, nested[|nested| - 1])
  }

  function MetaApplied(attrs: StructAttrs, meta: Meta): Result<StructAttrs, DeriveError> {
    if meta.List? then NestedApplied(attrs, meta.nested) else Success(attrs)
  }

  /** `parse_meta`: updates the attributes item by item. */
  method ParseMeta(attrs: StructAttrs, meta: Meta) returns (r: Result<StructAttrs, DeriveError>)
    ensures r == MetaApplied(attrs, meta)
  {
    if !meta.List? {
      return Success(attrs);
    }
    var current := attrs;
    var i := 0;
    while i < |meta.nested|
      invariant 0 <= i <= |meta.nested|
      invariant NestedApplied(attrs, meta.nested[..i]) == Success(current)
    {
      assert meta.nested[..i + 1][..i] == meta.nested[..i];
      var item := meta.nested[i];
      if item.NameValue? {
        if item.name == "offset" {
          if item.lit.IntLit? {
            if !InIsizeRange(item.lit.number) {
              NestedAppliedPrefixFails(attrs, meta.nested, i + 1);
              return Failure(OffsetOutOfRange);
            }
            current := current.(offset := item.lit.number);
          }
        } else if item.name == "emit_length" {
          if item.lit.BoolLit? {
            current := current.(emitLength := item.lit.value);
          }
        }
      }
      i := i + 1;
    }
    assert meta.nested[..i] == meta.nested;
    return Success(current);
  }

  /** The effect of one container attribute. */
  function AttrApplied(attrs: StructAttrs, attr: Attribute): Result<StructAttrs, DeriveError> {
    if attr.path == "serde_indexed" || attr.path == "serde" then
      if attr.meta.None? then Failure(MalformedAttribute) else MetaApplied(attrs, attr.meta.value)
    else Success(attrs)
  }

  function AttrsApplied(attrs: StructAttrs, list: seq<Attribute>): Result<StructAttrs, DeriveError> {
    if list == [] then Success(attrs)
    else
      match AttrsApplied(attrs, list[..|list| - 1])
      case Failure(e) => Failure(e)
      case Success(a) => AttrApplied(a, list[|list| - 1])
  }

  /** What `parse_attrs` returns for a struct's attributes. */
  function ParsedAttrs(list: seq<Attribute>): Result<StructAttrs, DeriveError> {
    AttrsApplied(DefaultStructAttrs, list)
  }

  /** `parse_attrs`: starts from the defaults and lets every `serde_indexed`
      and `serde` attribute update them in order. */
  method ParseAttrs(list: seq<Attribute>) returns (r: Result<StructAttrs, DeriveError>)
    ensures r == ParsedAttrs(list)
  {
    var current := DefaultStructAttrs;
    var i := 0;
    while i < |list|
      invariant 0 <= i <= |list|
      invariant AttrsApplied(DefaultStructAttrs, list[..i]) == Success(current)
    {
      assert list[..i + 1][..i] == list[..i];
      var attr := list[i];
      if attr.path == "serde_indexed" {
        if attr.meta.None? {
          AttrsAppliedPrefixFails(DefaultStructAttrs, list, i + 1);
          return Failure(MalformedAttribute);
        }
        var next := ParseMeta(current, attr.meta.value);
        if next.Failure? {
          AttrsAppliedPrefixFails(DefaultStructAttrs, list, i + 1);
          return Failure(next.error);
        }
        current := next.value;
      }
      if attr.path == "serde" {
        if attr.meta.None? {
          AttrsAppliedPrefixFails(DefaultStructAttrs, list, i + 1);
          return Failure(MalformedAttribute);
        }
        var next := ParseMeta(current, attr.meta.value);
        if next.Failure? {
          AttrsAppliedPrefixFails(DefaultStructAttrs, list, i + 1);
          return Failure(next.error);
        }
        current := next.value;
      }
      i := i + 1;
    }
    assert list[..i] == list;
    return Success(current);
  }

  // ---------------------------------------------------------------------------
  // Properties of the container attribute parser
  // ---------------------------------------------------------------------------

  /** With no attribute at all the defaults are offset 0 and a declared length. */
  lemma DefaultsWithoutAttributes()
    ensures ParsedAttrs([]) == Success(StructAttrs(0, true))
  {
  }

  /** `#[serde(...)]` and `#[serde_indexed(...)]` feed the same parser. */
  lemma SerdeAndSerdeIndexedAgree(attrs: StructAttrs, meta: Option<Meta>)
    ensures AttrApplied(attrs, Attribute("serde", meta)) == AttrApplied(attrs, Attribute("serde_indexed", meta))
  {
  }

  /** Items are applied in order: a list split in two is the first part
      followed by the second. */
  lemma {:induction false} NestedAppliedConcat(attrs: StructAttrs, xs: seq<NestedMeta>, ys: seq<NestedMeta>)
    ensures NestedApplied(attrs, xs + ys) ==
            match NestedApplied(attrs, xs)
            case Failure(e) => Failure(e)
            case Success(a) => NestedApplied(a, ys)
  {
    if ys == [] {
      assert xs + ys == xs;
    } else {
      var ys' := ys[..|ys| - 1];
      assert (xs + ys)[..|xs + ys| - 1] == xs + ys';
      assert (xs + ys)[|xs + ys| - 1] == ys[|ys| - 1];
      NestedAppliedConcat(attrs, xs, ys');
    }
  }

  /** Items that are no integer `offset` leave the offset alone, and items
      that are no boolean `emit_length` leave `emit_length` alone. */
  lemma {:induction false} NestedAppliedKeeps(attrs: StructAttrs, ys: seq<NestedMeta>)
    requires NestedApplied(attrs, ys).Success?
    ensures (forall i :: 0 <= i < |ys| ==> !IsOffsetInt(ys[i])) ==>
              NestedApplied(attrs, ys).value.offset == attrs.offset
    ensures (forall i :: 0 <= i < |ys| ==> !IsEmitLengthBool(ys[i])) ==>
              NestedApplied(attrs, ys).value.emitLength == attrs.emitLength
  {
    if ys != [] {
      NestedAppliedKeeps(attrs, ys[..|ys| - 1]);
    }
  }

  /** The last integer `offset` item wins. */
  lemma LastOffsetWins(attrs: StructAttrs, xs: seq<NestedMeta>, n: int, ys: seq<NestedMeta>)
    requires InIsizeRange(n)
    requires NestedApplied(attrs, xs).Success?
    requires forall i :: 0 <= i < |ys| ==> !IsOffsetInt(ys[i])
    ensures NestedApplied(attrs, xs + [NameValue("offset", IntLit(n))] + ys).Success?
    ensures NestedApplied(attrs, xs + [NameValue("offset", IntLit(n))] + ys).value.offset == n
  {
    var item := NameValue("offset", IntLit(n));
    NestedAppliedConcat(attrs, xs + [item], ys);
    assert (xs + [item])[..|xs + [item]| - 1] == xs;
    var a := NestedApplied(attrs, xs + [item]).value;
    assert a.offset == n;
    NestedAppliedFailsOnlyOutOfRange(a, ys);
    NestedAppliedKeeps(a, ys);
  }

  /** The last boolean `emit_length` item wins. */
  lemma LastEmitLengthWins(attrs: StructAttrs, xs: seq<NestedMeta>, b: bool, ys: seq<NestedMeta>)
    requires NestedApplied(attrs, xs).Success?
    requires forall i :: 0 <= i < |ys| ==> !IsEmitLengthBool(ys[i]) && !IsOffsetInt(ys[i])
    ensures NestedApplied(attrs, xs + [NameValue("emit_length", BoolLit(b))] + ys).Success?
    ensures NestedApplied(attrs, xs + [NameValue("emit_length", BoolLit(b))] + ys).value.emitLength == b
  {
    var item := NameValue("emit_length", BoolLit(b));
    NestedAppliedConcat(attrs, xs + [item], ys);
    assert (xs + [item])[..|xs + [item]| - 1] == xs;
    var a := NestedApplied(attrs, xs + [item]).value;
    NestedAppliedFailsOnlyOutOfRange(a, ys);
    NestedAppliedKeeps(a, ys);
  }

  /** Only an integer `offset` outside the `isize` range makes the nested
      items fail. */
  lemma {:induction false} NestedAppliedFailsOnlyOutOfRange(attrs: StructAttrs, ys: seq<NestedMeta>)
    ensures NestedApplied(attrs, ys).Failure? <==>
            exists i :: 0 <= i < |ys| && IsOffsetInt(ys[i]) && !InIsizeRange(ys[i].lit.number)
    ensures NestedApplied(attrs, ys).Failure? ==> NestedApplied(attrs, ys).error == OffsetOutOfRange
  {
    if ys != [] {
      var ys' := ys[..|ys| - 1];
      NestedAppliedFailsOnlyOutOfRange(attrs, ys');
      if exists i :: 0 <= i < |ys'| && IsOffsetInt(ys'[i]) && !InIsizeRange(ys'[i].lit.number) {
        var i :| 0 <= i < |ys'| && IsOffsetInt(ys'[i]) && !InIsizeRange(ys'[i].lit.number);
        assert ys[i] == ys'[i];
      }
    }
  }

  /** Attributes are applied in order as well. */
  lemma {:induction false} AttrsAppliedConcat(attrs: StructAttrs, xs: seq<Attribute>, ys: seq<Attribute>)
    ensures AttrsApplied(attrs, xs + ys) ==
            match AttrsApplied(attrs, xs)
            case Failure(e) => Failure(e)
            case Success(a) => AttrsApplied(a, ys)
  {
    if ys == [] {
      assert xs + ys == xs;
    } else {
      var ys' := ys[..|ys| - 1];
      assert (xs + ys)[..|xs + ys| - 1] == xs + ys';
      assert (xs + ys)[|xs + ys| - 1] == ys[|ys| - 1];
      AttrsAppliedConcat(attrs, xs, ys');
    }
  }

  // ---------------------------------------------------------------------------
  // Field attributes: skip_serializing_if and extras
  // ---------------------------------------------------------------------------

  /** The effect of one item of a field's `#[serde(...)]` on the
      `skip_serializing_if` being collected. */
  function SkipFromNested(skip: Option<string>, item: NestedMeta): Result<Option<string>, DeriveError> {
    if !item.NameValue? then Success(skip)
    else if item.name != "skip_serializing_if" then Failure(UnknownFieldAttribute)
    else if !item.lit.StrLit? then Success(skip)
    else if item.lit.isExprPath then Success(Some(item.lit.text))
    else Failure(UnparsableSkipPath)
  }

  function SkipFromNestedList(skip: Option<string>, nested: seq<NestedMeta>): Result<Option<string>, DeriveError> {
    if nested == [] then Success(skip)
    else
      match SkipFromNestedList(skip, nested[..|nested| - 1])
      case Failure(e) => Failure(e)
      case Success(s) => SkipFromNested(s, nested[|nested| - 1])
  }

  /** Only a parsable `#[serde(...)]` list is looked at. */
  predicate IsSerdeList(attr: Attribute) {
    attr.path == "serde" && attr.meta.Some? && attr.meta.value.List?
  }

  function SkipFromAttr(skip: Option<string>, attr: Attribute): Result<Option<string>, DeriveError> {
    if IsSerdeList(attr) then SkipFromNestedList(skip, attr.meta.value.nested) else Success(skip)
  }

  function SkipFromAttrs(list: seq<Attribute>): Result<Option<string>, DeriveError> {
    if list == [] then Success(None)
    else
      match SkipFromAttrs(list[..|list| - 1])
      case Failure(e) => Failure(e)
      case Success(s) => SkipFromAttr(s, list[|list| - 1])
  }

  /** The `skip_serializing_if` block of `fields_from_ast`. */
  method SkipSerializingIf(list: seq<Attribute>) returns (r: Result<Option<string>, DeriveError>)
    ensures r == SkipFromAttrs(list)
  {
    var skip: Option<string> := None;
    var i := 0;
    while i < |list|
      invariant 0 <= i <= |list|
      invariant SkipFromAttrs(list[..i]) == Success(skip)
    {
      assert list[..i + 1][..i] == list[..i];
      var attr := list[i];
      if attr.path == "serde" && attr.meta.Some? && attr.meta.value.List? {
        var nested := attr.meta.value.nested;
        var before := skip;
        var j := 0;
        while j < |nested|
          invariant 0 <= j <= |nested|
          invariant SkipFromNestedList(before, nested[..j]) == Success(skip)
        {
          assert nested[..j + 1][..j] == nested[..j];
          var item := nested[j];
          if item.NameValue? {
            if item.name == "skip_serializing_if" {
              if item.lit.StrLit? {
                if !item.lit.isExprPath {
                  SkipFromNestedListPrefixFails(before, nested, j + 1);
                  SkipFromAttrsPrefixFails(list, i + 1);
                  return Failure(UnparsableSkipPath);
                }
                skip := Some(item.lit.text);
              }
            } else {
              SkipFromNestedListPrefixFails(before, nested, j + 1);
              SkipFromAttrsPrefixFails(list, i + 1);
              return Failure(UnknownFieldAttribute);
            }
          }
          j := j + 1;
        }
        assert nested[..j] == nested;
      }
      i := i + 1;
    }
    assert list[..i] == list;
    return Success(skip);
  }

  /** An item the `skip_serializing_if` scan rejects: a `name = value` with
      another name (the "unknown field attribute" panic), or a string that
      is no path (the `unwrap` panics). */
  predicate RejectedSkipItem(item: NestedMeta) {
    item.NameValue? &&
    (item.name != "skip_serializing_if" || (item.lit.StrLit? && !item.lit.isExprPath))
  }

  function SkipItemError(item: NestedMeta): DeriveError
    requires item.NameValue?
  {
    if item.name != "skip_serializing_if" then UnknownFieldAttribute else UnparsableSkipPath
  }

  /** Item j is the first rejected one. */
  predicate FirstSkipRejection(nested: seq<NestedMeta>, j: int) {
    0 <= j < |nested| && RejectedSkipItem(nested[j]) &&
    forall k :: 0 <= k < j ==> !RejectedSkipItem(nested[k])
  }

  /** A field attribute the `skip_serializing_if` scan rejects. */
  predicate RejectedBySkipScan(attr: Attribute) {
    IsSerdeList(attr) &&
    exists j :: 0 <= j < |attr.meta.value.nested| && RejectedSkipItem(attr.meta.value.nested[j])
  }

  /** Item j of attribute i is the first rejected item of the first rejected
      attribute. */
  predicate FirstSkipScanRejection(list: seq<Attribute>, i: int, j: int) {
    0 <= i < |list| && IsSerdeList(list[i]) && FirstSkipRejection(list[i].meta.value.nested, j) &&
    forall k :: 0 <= k < i ==> !RejectedBySkipScan(list[k])
  }

  /** A list fails exactly when it holds a rejected item, and then with the
      error of the first one. */
  lemma {:induction false} SkipFromNestedListFails(skip: Option<string>, nested: seq<NestedMeta>)
    ensures SkipFromNestedList(skip, nested).Failure? <==>
            exists j :: 0 <= j < |nested| && RejectedSkipItem(nested[j])
    ensures SkipFromNestedList(skip, nested).Failure? ==>
            exists j :: FirstSkipRejection(nested, j) && SkipFromNestedList(skip, nested).error == SkipItemError(nested[j])
  {
    if nested != [] {
      var n' := nested[..|nested| - 1];
      SkipFromNestedListFails(skip, n');
      if SkipFromNestedList(skip, n').Failure? {
        var j :| FirstSkipRejection(n', j) && SkipFromNestedList(skip, n').error == SkipItemError(n'[j]);
        assert nested[j] == n'[j];
        assert FirstSkipRejection(nested, j);
      } else {
        var m := |n'|;
        assert forall k :: 0 <= k < m ==> nested[k] == n'[k];
        if RejectedSkipItem(nested[m]) {
          assert FirstSkipRejection(nested, m);
        }
      }
    }
  }

  /** The scan panics exactly when some `#[serde(...)]` of the field holds a
      rejected item, and then with the error of the first one. */
  lemma {:induction false} SkipScanFails(list: seq<Attribute>)
    ensures SkipFromAttrs(list).Failure? <==> exists i :: 0 <= i < |list| && RejectedBySkipScan(list[i])
    ensures SkipFromAttrs(list).Failure? ==>
            exists i, j :: FirstSkipScanRejection(list, i, j) &&
                           SkipFromAttrs(list).error == SkipItemError(list[i].meta.value.nested[j])
  {
    if list != [] {
      var l' := list[..|list| - 1];
      var m := |l'|;
      SkipScanFails(l');
      assert forall k :: 0 <= k < m ==> list[k] == l'[k];
      if SkipFromAttrs(l').Failure? {
        var i, j :| FirstSkipScanRejection(l', i, j) &&
                    SkipFromAttrs(l').error == SkipItemError(l'[i].meta.value.nested[j]);
        assert FirstSkipScanRejection(list, i, j);
      } else {
        var last := list[m];
        if IsSerdeList(last) {
          SkipFromNestedListFails(SkipFromAttrs(l').value, last.meta.value.nested);
          if SkipFromAttrs(list).Failure? {
            var j :| FirstSkipRejection(last.meta.value.nested, j) &&
                     SkipFromAttrs(list).error == SkipItemError(last.meta.value.nested[j]);
            assert FirstSkipScanRejection(list, m, j);
          }
        }
      }
    }
  }

  /** An item that sets the predicate: `skip_serializing_if = "..."`. */
  predicate SetsSkip(item: NestedMeta) {
    item.NameValue? && item.name == "skip_serializing_if" && item.lit.StrLit?
  }

  /** Item j is the last one of the list that sets the predicate. */
  predicate LastSkipSetter(nested: seq<NestedMeta>, j: int) {
    0 <= j < |nested| && SetsSkip(nested[j]) &&
    forall k :: j < k < |nested| ==> !SetsSkip(nested[k])
  }

  /** A `#[serde(...)]` list of the field that sets the predicate. */
  predicate HoldsSkip(attr: Attribute) {
    IsSerdeList(attr) &&
    exists j :: 0 <= j < |attr.meta.value.nested| && SetsSkip(attr.meta.value.nested[j])
  }

  /** Item j of attribute i is the last setter of the last attribute that
      holds one. */
  predicate LastSkipScanSetter(list: seq<Attribute>, i: int, j: int) {
    0 <= i < |list| && IsSerdeList(list[i]) && LastSkipSetter(list[i].meta.value.nested, j) &&
    forall k :: i < k < |list| ==> !HoldsSkip(list[k])
  }

  /** A successful list scan keeps the predicate found so far when no item
      sets one, and otherwise yields the text of the last item that does. */
  lemma {:induction false} SkipFromNestedListValue(skip: Option<string>, nested: seq<NestedMeta>)
    requires SkipFromNestedList(skip, nested).Success?
    ensures (forall j :: 0 <= j < |nested| ==> !SetsSkip(nested[j])) ==>
              SkipFromNestedList(skip, nested).value == skip
    ensures forall j :: LastSkipSetter(nested, j) ==>
              SkipFromNestedList(skip, nested).value == Some(nested[j].lit.text)
  {
    if nested != [] {
      var n' := nested[..|nested| - 1];
      var m := |n'|;
      var before := SkipFromNestedList(skip, n').value;
      var item, r := nested[m], SkipFromNestedList(skip, nested).value;
      assert SkipFromNestedList(skip, nested) == SkipFromNested(before, item);
      SkipFromNestedListValue(skip, n');
      if SetsSkip(item) {
        assert r == Some(item.lit.text);
        forall j | LastSkipSetter(nested, j)
          ensures r == Some(nested[j].lit.text)
        {
          assert j == m;
        }
      } else {
        assert r == before;
        forall j | LastSkipSetter(nested, j)
          ensures r == Some(nested[j].lit.text)
        {
          assert j < m && nested[j] == n'[j];
          forall k | j < k < m
            ensures !SetsSkip(n'[k])
          {
            assert n'[k] == nested[k];
          }
          assert LastSkipSetter(n', j);
        }
        if forall j :: 0 <= j < |nested| ==> !SetsSkip(nested[j]) {
          forall j | 0 <= j < m
            ensures !SetsSkip(n'[j])
          {
            assert n'[j] == nested[j];
          }
        }
      }
    }
  }

  /** What a successful `skip_serializing_if` scan yields: nothing when no
      `#[serde(...)]` of the field sets the predicate, and otherwise the text
      of the last `skip_serializing_if` string of the last list that does. */
  lemma {:induction false} SkipScanValue(list: seq<Attribute>)
    requires SkipFromAttrs(list).Success?
    ensures (forall i :: 0 <= i < |list| ==> !HoldsSkip(list[i])) ==> SkipFromAttrs(list).value == None
    ensures forall i, j :: LastSkipScanSetter(list, i, j) ==>
              SkipFromAttrs(list).value == Some(list[i].meta.value.nested[j].lit.text)
  {
    if list != [] {
      var l' := list[..|list| - 1];
      var m := |l'|;
      var last := list[m];
      var before := SkipFromAttrs(l').value;
      var r := SkipFromAttrs(list).value;
      assert SkipFromAttrs(list) == SkipFromAttr(before, last);
      SkipScanValue(l');
      if IsSerdeList(last) {
        SkipFromNestedListValue(before, last.meta.value.nested);
      }
      if HoldsSkip(last) {
        forall i, j | LastSkipScanSetter(list, i, j)
          ensures r == Some(list[i].meta.value.nested[j].lit.text)
        {
          assert i == m;
        }
      } else {
        assert r == before;
        forall i, j | LastSkipScanSetter(list, i, j)
          ensures r == Some(list[i].meta.value.nested[j].lit.text)
        {
          assert i < m;
          assert list[i] == l'[i];
          assert LastSkipScanSetter(l', i, j);
        }
        if forall i :: 0 <= i < |list| ==> !HoldsSkip(list[i]) {
          assert forall i :: 0 <= i < m ==> !HoldsSkip(l'[i]) by {
            assert forall i :: 0 <= i < m ==> list[i] == l'[i];
          }
        }
      }
    }
  }

  /** The effect of one item of a field's `#[serde_indexed(...)]`. */
  function ExtrasFromNested(extras: bool, item: NestedMeta): Result<bool, DeriveError> {
    if !item.Path? then Success(extras)
    else if item.name == "extras" then Success(true)
    else Failure(UnknownFieldAttribute)
  }

  function ExtrasFromNestedList(extras: bool, nested: seq<NestedMeta>): Result<bool, DeriveError> {
    if nested == [] then Success(extras)
    else
      match ExtrasFromNestedList(extras, nested[..|nested| - 1])
      case Failure(e) => Failure(e)
      case Success(x) => ExtrasFromNested(x, nested[|nested| - 1])
  }

  predicate IsSerdeIndexedList(attr: Attribute) {
    attr.path == "serde_indexed" && attr.meta.Some? && attr.meta.value.List?
  }

  function ExtrasFromAttr(extras: bool, attr: Attribute): Result<bool, DeriveError> {
    if IsSerdeIndexedList(attr) then ExtrasFromNestedList(extras, attr.meta.value.nested) else Success(extras)
  }

  function ExtrasFromAttrs(list: seq<Attribute>): Result<bool, DeriveError> {
    if list == [] then Success(false)
    else
      match ExtrasFromAttrs(list[..|list| - 1])
      case Failure(e) => Failure(e)
      case Success(x) => ExtrasFromAttr(x, list[|list| - 1])
  }

  /** The `collect_extras` block of `fields_from_ast`. */
  method CollectExtras(list: seq<Attribute>) returns (r: Result<bool, DeriveError>)
    ensures r == ExtrasFromAttrs(list)
  {
    var extras := false;
    var i := 0;
    while i < |list|
      invariant 0 <= i <= |list|
      invariant ExtrasFromAttrs(list[..i]) == Success(extras)
    {
      assert list[..i + 1][..i] == list[..i];
      var attr := list[i];
      if attr.path == "serde_indexed" && attr.meta.Some? && attr.meta.value.List? {
        var nested := attr.meta.value.nested;
        var before := extras;
        var j := 0;
        while j < |nested|
          invariant 0 <= j <= |nested|
          invariant ExtrasFromNestedList(before, nested[..j]) == Success(extras)
        {
          assert nested[..j + 1][..j] == nested[..j];
          var item := nested[j];
          if item.Path? {
            if item.name == "extras" {
              extras := true;
            } else {
              ExtrasFromNestedListPrefixFails(before, nested, j + 1);
              ExtrasFromAttrsPrefixFails(list, i + 1);
              return Failure(UnknownFieldAttribute);
            }
          }
          j := j + 1;
        }
        assert nested[..j] == nested;
      }
      i := i + 1;
    }
    assert list[..i] == list;
    return Success(extras);
  }

  predicate MarksExtras(attr: Attribute) {
    IsSerdeIndexedList(attr) &&
    exists j :: 0 <= j < |attr.meta.value.nested| && attr.meta.value.nested[j] == Path("extras")
  }

  lemma {:induction false} ExtrasFromNestedListSpec(extras: bool, nested: seq<NestedMeta>)
    requires ExtrasFromNestedList(extras, nested).Success?
    ensures ExtrasFromNestedList(extras, nested).value <==>
            extras || exists j :: 0 <= j < |nested| && nested[j] == Path("extras")
  {
    if nested != [] {
      var n' := nested[..|nested| - 1];
      ExtrasFromNestedListSpec(extras, n');
      if exists j :: 0 <= j < |n'| && n'[j] == Path("extras") {
        var j :| 0 <= j < |n'| && n'[j] == Path("extras");
        assert nested[j] == n'[j];
      }
    }
  }

  /** When the scan succeeds, `collect_extras` is true exactly when some
      `#[serde_indexed(...)]` of the field holds the bare path `extras`. */
  lemma {:induction false} ExtrasScanSpec(list: seq<Attribute>)
    requires ExtrasFromAttrs(list).Success?
    ensures ExtrasFromAttrs(list).value <==> exists i :: 0 <= i < |list| && MarksExtras(list[i])
  {
    if list != [] {
      var l' := list[..|list| - 1];
      ExtrasScanSpec(l');
      if exists i :: 0 <= i < |l'| && MarksExtras(l'[i]) {
        var i :| 0 <= i < |l'| && MarksExtras(l'[i]);
        assert list[i] == l'[i];
      }
      var last := list[|list| - 1];
      if IsSerdeIndexedList(last) {
        ExtrasFromNestedListSpec(ExtrasFromAttrs(l').value, last.meta.value.nested);
      }
    }
  }

  /** An item the `collect_extras` scan rejects: a bare path other than
      `extras`. */
  predicate RejectedExtrasItem(item: NestedMeta) {
    item.Path? && item.name != "extras"
  }

  predicate RejectedByExtrasScan(attr: Attribute) {
    IsSerdeIndexedList(attr) &&
    exists j :: 0 <= j < |attr.meta.value.nested| && RejectedExtrasItem(attr.meta.value.nested[j])
  }

  lemma {:induction false} ExtrasFromNestedListFails(extras: bool, nested: seq<NestedMeta>)
    ensures ExtrasFromNestedList(extras, nested).Failure? <==>
            exists j :: 0 <= j < |nested| && RejectedExtrasItem(nested[j])
    ensures ExtrasFromNestedList(extras, nested).Failure? ==>
            ExtrasFromNestedList(extras, nested).error == UnknownFieldAttribute
  {
    if nested != [] {
      var n' := nested[..|nested| - 1];
      ExtrasFromNestedListFails(extras, n');
      if exists j :: 0 <= j < |n'| && RejectedExtrasItem(n'[j]) {
        var j :| 0 <= j < |n'| && RejectedExtrasItem(n'[j]);
        assert nested[j] == n'[j];
      }
    }
  }

  /** The `collect_extras` scan panics exactly when some
      `#[serde_indexed(...)]` of the field holds a bare path other than
      `extras`. */
  lemma {:induction false} ExtrasScanFails(list: seq<Attribute>)
    ensures ExtrasFromAttrs(list).Failure? <==> exists i :: 0 <= i < |list| && RejectedByExtrasScan(list[i])
    ensures ExtrasFromAttrs(list).Failure? ==> ExtrasFromAttrs(list).error == UnknownFieldAttribute
  {
    if list != [] {
      var l' := list[..|list| - 1];
      ExtrasScanFails(l');
      if exists i :: 0 <= i < |l'| && RejectedByExtrasScan(l'[i]) {
        var i :| 0 <= i < |l'| && RejectedByExtrasScan(l'[i]);
        assert list[i] == l'[i];
      }
      var last := list[|list| - 1];
      if ExtrasFromAttrs(l').Success? && IsSerdeIndexedList(last) {
        ExtrasFromNestedListFails(ExtrasFromAttrs(l').value, last.meta.value.nested);
      }
    }
  }

  // Once a prefix fails, the whole list fails with the same error.

  lemma {:induction false} NestedAppliedPrefixFails(attrs: StructAttrs, nested: seq<NestedMeta>, i: nat)
    requires i <= |nested| && NestedApplied(attrs, nested[..i]).Failure?
    ensures NestedApplied(attrs, nested) == NestedApplied(attrs, nested[..i])
  {
    if i < |nested| {
      assert nested[..|nested| - 1][..i] == nested[..i];
      NestedAppliedPrefixFails(attrs, nested[..|nested| - 1], i);
    } else {
      assert nested[..i] == nested;
    }
  }

  lemma {:induction false} AttrsAppliedPrefixFails(attrs: StructAttrs, list: seq<Attribute>, i: nat)
    requires i <= |list| && AttrsApplied(attrs, list[..i]).Failure?
    ensures AttrsApplied(attrs, list) == AttrsApplied(attrs, list[..i])
  {
    if i < |list| {
      assert list[..|list| - 1][..i] == list[..i];
      AttrsAppliedPrefixFails(attrs, list[..|list| - 1], i);
    } else {
      assert list[..i] == list;
    }
  }

  lemma {:induction false} SkipFromNestedListPrefixFails(skip: Option<string>, nested: seq<NestedMeta>, i: nat)
    requires i <= |nested| && SkipFromNestedList(skip, nested[..i]).Failure?
    ensures SkipFromNestedList(skip, nested) == SkipFromNestedList(skip, nested[..i])
  {
    if i < |nested| {
      assert nested[..|nested| - 1][..i] == nested[..i];
      SkipFromNestedListPrefixFails(skip, nested[..|nested| - 1], i);
    } else {
      assert nested[..i] == nested;
    }
  }

  lemma {:induction false} SkipFromAttrsPrefixFails(list: seq<Attribute>, i: nat)
    requires i <= |list| && SkipFromAttrs(list[..i]).Failure?
    ensures SkipFromAttrs(list) == SkipFromAttrs(list[..i])
  {
    if i < |list| {
      assert list[..|list| - 1][..i] == list[..i];
      SkipFromAttrsPrefixFails(list[..|list| - 1], i);
    } else {
      assert list[..i] == list;
    }
  }

  lemma {:induction false} ExtrasFromNestedListPrefixFails(extras: bool, nested: seq<NestedMeta>, i: nat)
    requires i <= |nested| && ExtrasFromNestedList(extras, nested[..i]).Failure?
    ensures ExtrasFromNestedList(extras, nested) == ExtrasFromNestedList(extras, nested[..i])
  {
    if i < |nested| {
      assert nested[..|nested| - 1][..i] == nested[..i];
      ExtrasFromNestedListPrefixFails(extras, nested[..|nested| - 1], i);
    } else {
      assert nested[..i] == nested;
    }
  }

  lemma {:induction false} ExtrasFromAttrsPrefixFails(list: seq<Attribute>, i: nat)
    requires i <= |list| && ExtrasFromAttrs(list[..i]).Failure?
    ensures ExtrasFromAttrs(list) == ExtrasFromAttrs(list[..i])
  {
    if i < |list| {
      assert list[..|list| - 1][..i] == list[..i];
      ExtrasFromAttrsPrefixFails(list[..|list| - 1], i);
    } else {
      assert list[..i] == list;
    }
  }

  // ---------------------------------------------------------------------------
  // fields_from_ast and Input::parse
  // ---------------------------------------------------------------------------

  /** One element of `fields_from_ast`'s `enumerate().map(...)`. */
  function FieldFromAst(i: nat, field: AstField): Result<Field, DeriveError> {
    var skip :- SkipFromAttrs(field.attrs);
    var extras :- ExtrasFromAttrs(field.attrs);
    Success(Field(field.ident, i, skip, extras, field.ty == OptionType))
  }

  /** Field i is the first, in declaration order, whose conversion fails. */
  predicate FirstFieldFailure(ast: seq<AstField>, i: nat) {
    && i < |ast|
    && FieldFromAst(i, ast[i]).Failure?
    && forall j :: 0 <= j < i ==> FieldFromAst(j, ast[j]).Success?
  }

  /** `fields_from_ast`: the field at position i gets index i, its identifier as
      name, and the attributes its scans found. */
  function FieldsFromAst(ast: seq<AstField>): (r: Result<seq<Field>, DeriveError>)
    ensures r.Success? ==> |r.value| == |ast|
    ensures r.Success? ==> forall i :: 0 <= i < |ast| ==>
              && r.value[i].index == i
              && r.value[i].name == ast[i].ident
              && r.value[i].isOption == (ast[i].ty == OptionType)
              && SkipFromAttrs(ast[i].attrs) == Success(r.value[i].skipSerializingIf)
              && ExtrasFromAttrs(ast[i].attrs) == Success(r.value[i].collectExtras)
    ensures r.Failure? <==> exists i :: 0 <= i < |ast| && FieldFromAst(i, ast[i]).Failure?
  {
    if ast == [] then Success([])
    else
      var n := |ast| - 1;
      match FieldsFromAst(ast[..n])
      case Failure(e) => Failure(e)
      case Success(fs) =>
        match FieldFromAst(n, ast[n])
        case Failure(e) => Failure(e)
        case Success(f) => Success(fs + [f])
  }

  /** A failing `fields_from_ast` fails with the error of the first field, in
      declaration order, whose attributes are rejected. */
  lemma {:induction false} FieldsFromAstFirstFailure(ast: seq<AstField>)
    ensures FieldsFromAst(ast).Failure? ==>
              exists i: nat :: FirstFieldFailure(ast, i) && FieldFromAst(i, ast[i]) == Failure(FieldsFromAst(ast).error)
  {
    if ast != [] {
      var n := |ast| - 1;
      var front := ast[..n];
      assert forall j :: 0 <= j < n ==> front[j] == ast[j];
      FieldsFromAstFirstFailure(front);
      match FieldsFromAst(front)
      case Failure(e) =>
        var i: nat :| FirstFieldFailure(front, i) && FieldFromAst(i, front[i]) == Failure(e);
        assert FirstFieldFailure(ast, i);
      case Success(fs) =>
        if FieldFromAst(n, ast[n]).Failure? {
          assert forall j :: 0 <= j < n ==> FieldFromAst(j, ast[j]).Success? by {
            forall j | 0 <= j < n
              ensures FieldFromAst(j, ast[j]).Success?
            {
              assert FieldFromAst(j, front[j]).Success?;
            }
          }
          assert FirstFieldFailure(ast, n);
        }
    }
  }

  /** Fields that each parse on their own parse together, in order. */
  lemma FieldsFromEach(ast: seq<AstField>, fields: seq<Field>)
    requires |ast| == |fields|
    requires forall i :: 0 <= i < |ast| ==> FieldFromAst(i, ast[i]) == Success(fields[i])
    ensures FieldsFromAst(ast) == Success(fields)
  {
    var r := FieldsFromAst(ast);
    assert r.Success?;
    assert r.value == fields;
  }

  /** `Input::parse`. */
  function ParseInput(input: DeriveInput): (r: Result<Input, DeriveError>)
    ensures !input.data.Struct? ==> r == Failure(InputMustBeStruct)
    ensures input.data.Struct? && ParsedAttrs(input.attrs).Failure? ==> r == Failure(ParsedAttrs(input.attrs).error)
    ensures input.data.Struct? && ParsedAttrs(input.attrs).Success? && !input.data.fields.Named? ==>
              r == Failure(FieldsMustBeNamed)
    ensures r.Success? ==> && input.data.Struct? && input.data.fields.Named?
                           && r.value.ident == input.ident
                           && Success(r.value.attrs) == ParsedAttrs(input.attrs)
                           && FieldsFromAst(input.data.fields.named) == Success(r.value.fields)
                           && |r.value.fields| == |input.data.fields.named|
                           && forall i :: 0 <= i < |r.value.fields| ==> r.value.fields[i].index == i
    ensures input.data.Struct? && ParsedAttrs(input.attrs).Success? && input.data.fields.Named? &&
            FieldsFromAst(input.data.fields.named).Failure? ==>
              r == Failure(FieldsFromAst(input.data.fields.named).error)
  {
    if !input.data.Struct? then Failure(InputMustBeStruct)
    else
      var attrs :- ParsedAttrs(input.attrs);
      if !input.data.fields.Named? then Failure(FieldsMustBeNamed)
      else
        var fields :- FieldsFromAst(input.data.fields.named);
        Success(Input(input.ident, attrs, fields))
  }
}
