/**
 * `Container`: the parsed model of a derive input — its attributes and its
 * fields or variants, each with parsed attributes — together with the two
 * rules applied while it is assembled: a primary key is designated when none
 * is annotated, and `rename_all` rules are pushed down to the names.
 */
module Containers {
  import opened Wrappers
  import opened Syntax
  import opened Accumulators
  import opened Collaborators
  import opened Names
  import opened AttrWalk
  import Strings
  import Symbols
  import NameItems
  import FieldAttrs
  import VariantAttrs
  import ContainerAttrs

  /** How the fields of a struct or variant are named. */
  datatype Style = StructStyle | TupleStyle | NewtypeStyle | UnitStyle

  /** The name `{:?}` gives a style. */
  function StyleName(style: Style): string {
    match style
    case StructStyle => "Struct"
    case TupleStyle => "Tuple"
    case NewtypeStyle => "Newtype"
    case UnitStyle => "Unit"
  }

  function UnsupportedStyleMessage(style: Style): string {
    StyleName(style) + " Struct is not supported"
  }

  /** A field: its identifier (none in a tuple), its position, its parsed attributes and its type. */
  datatype Field = Field(ident: Option<string>, index: nat, attrs: FieldAttrs.FieldAttr, ty: Type)

  datatype Variant = Variant(ident: string, attrs: VariantAttrs.VariantAttr, style: Style, fields: seq<Field>)

  datatype Data = EnumVariants(variants: seq<Variant>) | StructFields(style: Style, fields: seq<Field>)

  datatype Container = Container(ident: string, data: Data, attrs: ContainerAttrs.ContainerAttr)

  const NoPrimaryKeyMessage: string :=
    "A primary field doesn't exists, either add `id` field or annotate a field `primary_key`"

  const UnionMessage: string := "Serde does not support derive for unions"

  /** The name the primary key is looked up by when none is annotated. */
  const IdName: string := "id"

  // ---------------------------------------------------------------------------
  // Fields
  // ---------------------------------------------------------------------------

  /** The parsed attributes of the field at position `index`. */
  function FieldAttrOf(env: Env, def: FieldDef, index: nat): FieldAttrs.FieldAttr {
    FieldAttrs.FieldAttrOfItems(env, FieldAttrs.FieldSourceName(def.ident, index), RedisItems(def.attrs))
  }

  /**
   * The fields as parsed, before a primary key is designated. A field's
   * attributes do not depend on what was reported before it, so they are
   * computed apart from the diagnostics.
   */
  function ParsedFields(env: Env, defs: seq<FieldDef>): (r: seq<Field>)
    ensures |r| == |defs|
    ensures forall i :: 0 <= i < |defs| ==>
      r[i] == Field(defs[i].ident, i, FieldAttrOf(env, defs[i], i), defs[i].ty)
  {
    seq(|defs|, i requires 0 <= i < |defs| => Field(defs[i].ident, i, FieldAttrOf(env, defs[i], i), defs[i].ty))
  }

  /** What parsing the fields in order reports, numbering them from `first`. */
  function FieldDiagnostics(env: Env, defs: seq<FieldDef>, first: nat, ctx: Ctx): (r: Ctx)
    ensures |r| >= |ctx| && r[..|ctx|] == ctx
    decreases |defs|
  {
    if |defs| == 0 then ctx
    else
      var c1 := FieldAttrs.FromAst(env, defs[0].ident, first, defs[0].attrs, ctx).1;
      var c2 := FieldDiagnostics(env, defs[1..], first + 1, c1);
      assert c2[..|ctx|] == c1[..|ctx|];
      c2
  }

  predicate HasPrimaryKey(fields: seq<Field>) {
    exists i :: 0 <= i < |fields| && fields[i].attrs.primaryKey
  }

  /** The field's serialize name is `id`. */
  predicate NamedId(f: Field) {
    SerializeName(f.attrs.name) == IdName
  }

  /** The position of the first field serialized as `id`. */
  function FindId(fields: seq<Field>): (r: Option<nat>)
    ensures r.None? <==> forall i :: 0 <= i < |fields| ==> !NamedId(fields[i])
    ensures r.Some? ==> r.value < |fields| && NamedId(fields[r.value])
    ensures r.Some? ==> forall j :: 0 <= j < r.value ==> !NamedId(fields[j])
    decreases |fields|
  {
    if |fields| == 0 then None
    else if NamedId(fields[0]) then Some(0)
    else match FindId(fields[1..])
      case None => None
      case Some(k) => Some(k + 1)
  }

  /** The same fields with one field marked as the primary key. */
  function MarkPrimaryKey(fields: seq<Field>, k: nat): (r: seq<Field>)
    requires k < |fields|
    ensures |r| == |fields|
    ensures r[k].attrs.primaryKey
    ensures forall i :: 0 <= i < |fields| && i != k ==> r[i] == fields[i]
    ensures r[k].(attrs := r[k].attrs.(primaryKey := fields[k].attrs.primaryKey)) == fields[k]
  {
    fields[k := fields[k].(attrs := fields[k].attrs.(primaryKey := true))]
  }

  /**
   * The end of `fields_from_ast`: with no annotated primary key, the first
   * field serialized as `id` becomes the primary key. Annotated primary keys
   * are not checked further, so two annotated fields are both kept.
   */
  function DesignatePrimaryKey(fields: seq<Field>): (r: seq<Field>)
    ensures |r| == |fields|
    ensures forall i :: 0 <= i < |fields| ==>
      r[i].(attrs := r[i].attrs.(primaryKey := fields[i].attrs.primaryKey)) == fields[i]
    ensures forall i :: 0 <= i < |fields| && fields[i].attrs.primaryKey ==> r[i].attrs.primaryKey
    ensures forall i :: 0 <= i < |fields| && r[i].attrs.primaryKey && !fields[i].attrs.primaryKey ==>
      !HasPrimaryKey(fields) && NamedId(fields[i]) && forall j :: 0 <= j < i ==> !NamedId(fields[j])
    ensures HasPrimaryKey(r) <==> (HasPrimaryKey(fields) || exists i :: 0 <= i < |fields| && NamedId(fields[i]))
  {
    if HasPrimaryKey(fields) then fields
    else match FindId(fields)
      case Some(k) =>
        var r := MarkPrimaryKey(fields, k);
        assert HasPrimaryKey(r) by { assert r[k].attrs.primaryKey; }
        r
      case None => fields
  }

  /** The diagnostic reported when no field ends up as the primary key. */
  function PrimaryKeyDiagnostics(fields: seq<Field>): (r: seq<string>)
    ensures r == [] <==> HasPrimaryKey(fields)
  {
    if HasPrimaryKey(fields) then [] else [NoPrimaryKeyMessage]
  }

  /** The fields of a struct or variant as `fields_from_ast` leaves them. */
  function FieldsOf(env: Env, defs: seq<FieldDef>): seq<Field> {
    DesignatePrimaryKey(ParsedFields(env, defs))
  }

  /**
   * `fields_from_ast`: every field parsed in order, then the primary key
   * designated; the missing-key diagnostic follows the fields' own.
   */
  function FieldsFromAst(env: Env, defs: seq<FieldDef>, ctx: Ctx): (r: (seq<Field>, Ctx))
    ensures r.0 == FieldsOf(env, defs)
    ensures r.1 == FieldDiagnostics(env, defs, 0, ctx) + PrimaryKeyDiagnostics(r.0)
  {
    var fields := FieldsOf(env, defs);
    (fields, FieldDiagnostics(env, defs, 0, ctx) + PrimaryKeyDiagnostics(fields))
  }

  /**
   * The fields have a primary key exactly when some field is annotated
   * `primary_key` or is serialized as `id`; otherwise it is reported.
   */
  lemma FieldsOfPrimaryKey(env: Env, defs: seq<FieldDef>)
    ensures |FieldsOf(env, defs)| == |defs|
    ensures HasPrimaryKey(FieldsOf(env, defs))
        <==> (exists i :: 0 <= i < |defs| && (FieldAttrOf(env, defs[i], i).primaryKey
                                             || SerializeName(FieldAttrOf(env, defs[i], i).name) == IdName))
    ensures PrimaryKeyDiagnostics(FieldsOf(env, defs)) == [] <==> HasPrimaryKey(FieldsOf(env, defs))
  {
    var parsed := ParsedFields(env, defs);
    if HasPrimaryKey(parsed) {
      var i :| 0 <= i < |parsed| && parsed[i].attrs.primaryKey;
      assert FieldAttrOf(env, defs[i], i).primaryKey;
    }
    if exists i :: 0 <= i < |defs| && FieldAttrOf(env, defs[i], i).primaryKey {
      var i :| 0 <= i < |defs| && FieldAttrOf(env, defs[i], i).primaryKey;
      assert parsed[i].attrs.primaryKey;
    }
  }

  /** Two annotated primary keys are both kept, and nothing is reported about them. */
  lemma AnnotatedPrimaryKeysKept(fields: seq<Field>, i: nat, j: nat)
    requires i < j < |fields|
    requires fields[i].attrs.primaryKey && fields[j].attrs.primaryKey
    ensures DesignatePrimaryKey(fields) == fields
    ensures PrimaryKeyDiagnostics(DesignatePrimaryKey(fields)) == []
  {
  }

  /** When no field is annotated, at most one field is made the primary key. */
  lemma {:induction false} AutoDesignationPicksOne(fields: seq<Field>, i: nat, j: nat)
    requires !HasPrimaryKey(fields)
    requires i < |fields| && j < |fields|
    requires DesignatePrimaryKey(fields)[i].attrs.primaryKey && DesignatePrimaryKey(fields)[j].attrs.primaryKey
    ensures i == j
  {
    var r := DesignatePrimaryKey(fields);
    assert !fields[i].attrs.primaryKey && !fields[j].attrs.primaryKey;
    assert NamedId(fields[i]) && NamedId(fields[j]);
  }

  /**
   * A tuple's fields are known by their positions, which are never `id`: with
   * no field annotated and none renamed, the missing primary key is reported.
   */
  lemma TupleFieldsNeedAnnotation(env: Env, defs: seq<FieldDef>, ctx: Ctx)
    requires forall i :: 0 <= i < |defs| ==> defs[i].ident.None?
    requires forall i :: 0 <= i < |defs| ==> !HasWord(RedisItems(defs[i].attrs), Symbols.PRIMARY_KEY)
    requires forall i :: 0 <= i < |defs| ==> |NameItems.SerValues(RedisItems(defs[i].attrs))| == 0
    ensures !HasPrimaryKey(FieldsFromAst(env, defs, ctx).0)
    ensures FieldsFromAst(env, defs, ctx).1 == FieldDiagnostics(env, defs, 0, ctx) + [NoPrimaryKeyMessage]
  {
    FieldsOfPrimaryKey(env, defs);
    forall i | 0 <= i < |defs|
      ensures !FieldAttrOf(env, defs[i], i).primaryKey
      ensures SerializeName(FieldAttrOf(env, defs[i], i).name) != IdName
    {
      var src := FieldAttrs.FieldSourceName(defs[i].ident, i);
      FieldAttrs.FieldAttrOfItemsMeaning(env, src, RedisItems(defs[i].attrs));
      assert Strings.AllDigits(src);
      assert !Strings.IsDigit(IdName[0]);
      if |src| > 0 { assert Strings.IsDigit(src[0]); }
    }
  }

  // ---------------------------------------------------------------------------
  // Structs and enums
  // ---------------------------------------------------------------------------

  /** `struct_from_ast` without its diagnostics: the style and the fields. */
  function StructOf(env: Env, fields: Fields): (r: (Style, seq<Field>))
    ensures r.0 == StructStyle <==> fields.Named?
    ensures r.0 == NewtypeStyle <==> fields.Unnamed? && |fields.unnamed| == 1
    ensures r.0 == TupleStyle <==> fields.Unnamed? && |fields.unnamed| != 1
    ensures r.0 == UnitStyle <==> fields.Unit?
    ensures fields.Unit? ==> r.1 == []
    ensures fields.Named? ==> r.1 == FieldsOf(env, fields.named)
    ensures fields.Unnamed? ==> r.1 == FieldsOf(env, fields.unnamed)
  {
    match fields
    case Named(fs) => (StructStyle, FieldsOf(env, fs))
    case Unnamed(fs) => (if |fs| == 1 then NewtypeStyle else TupleStyle, FieldsOf(env, fs))
    case Unit => (UnitStyle, [])
  }

  /** What `struct_from_ast` reports; a unit struct or variant has no fields to check. */
  function StructDiagnostics(env: Env, fields: Fields, ctx: Ctx): (r: Ctx)
    ensures |r| >= |ctx| && r[..|ctx|] == ctx
    ensures fields.Unit? ==> r == ctx
  {
    match fields
    case Named(fs) => FieldsFromAst(env, fs, ctx).1
    case Unnamed(fs) => FieldsFromAst(env, fs, ctx).1
    case Unit => ctx
  }

  /** A variant as `enum_from_ast` builds it. */
  function VariantOf(env: Env, v: VariantDef): Variant {
    Variant(v.ident, VariantAttrs.VariantAttrOfItems(env, Strings.Unraw(v.ident), RedisItems(v.attrs)),
            StructOf(env, v.fields).0, StructOf(env, v.fields).1)
  }

  /** What `enum_from_ast` reports: each variant's attributes, then its fields. */
  function EnumDiagnostics(env: Env, vs: seq<VariantDef>, ctx: Ctx): (r: Ctx)
    ensures |r| >= |ctx| && r[..|ctx|] == ctx
    decreases |vs|
  {
    if |vs| == 0 then ctx
    else
      var c1 := VariantAttrs.FromAst(env, vs[0].ident, vs[0].attrs, ctx).1;
      var c2 := StructDiagnostics(env, vs[0].fields, c1);
      var c3 := EnumDiagnostics(env, vs[1..], c2);
      assert c3[..|ctx|] == c2[..|ctx|];
      c3
  }

  /** The variants in order, each with its attributes, style and fields. */
  function VariantsOf(env: Env, vs: seq<VariantDef>): (r: seq<Variant>)
    ensures |r| == |vs|
    ensures forall i :: 0 <= i < |vs| ==> r[i] == VariantOf(env, vs[i])
  {
    seq(|vs|, i requires 0 <= i < |vs| => VariantOf(env, vs[i]))
  }

  // ---------------------------------------------------------------------------
  // Renaming and flattening
  // ---------------------------------------------------------------------------

  /** Every field renamed by the rules; nothing else changes. */
  function RenameFields(env: Env, fields: seq<Field>, rules: RenameAllRules): (r: seq<Field>)
    ensures |r| == |fields|
    ensures forall i :: 0 <= i < |fields| ==>
      r[i] == fields[i].(attrs := FieldAttrs.RenameByRules(env, fields[i].attrs, rules))
  {
    seq(|fields|, i requires 0 <= i < |fields| => fields[i].(attrs := FieldAttrs.RenameByRules(env, fields[i].attrs, rules)))
  }

  /** A variant renamed by the container's rules; its fields by the variant's own rules. */
  function RenameVariant(env: Env, v: Variant, rules: RenameAllRules): Variant {
    v.(attrs := VariantAttrs.RenameByRules(env, v.attrs, rules),
       fields := RenameFields(env, v.fields, v.attrs.rules))
  }

  function RenameVariants(env: Env, vs: seq<Variant>, rules: RenameAllRules): (r: seq<Variant>)
    ensures |r| == |vs|
    ensures forall i :: 0 <= i < |vs| ==> r[i] == RenameVariant(env, vs[i], rules)
  {
    seq(|vs|, i requires 0 <= i < |vs| => RenameVariant(env, vs[i], rules))
  }

  /** Some field, of the struct or of any variant, is flattened. */
  predicate AnyFlatten(data: Data) {
    match data
    case StructFields(_, fs) => exists i :: 0 <= i < |fs| && fs[i].attrs.flatten
    case EnumVariants(vs) =>
      exists i, j :: 0 <= i < |vs| && 0 <= j < |vs[i].fields| && vs[i].fields[j].attrs.flatten
  }

  /** Renaming leaves every flag, the flatten flag included, as it was. */
  lemma RenamingKeepsFlatten(env: Env, fields: seq<Field>, rules: RenameAllRules)
    ensures forall i :: 0 <= i < |fields| ==>
      RenameFields(env, fields, rules)[i].attrs.flatten == fields[i].attrs.flatten
      && RenameFields(env, fields, rules)[i].attrs.primaryKey == fields[i].attrs.primaryKey
  {
  }

  // ---------------------------------------------------------------------------
  // `Container::new`
  // ---------------------------------------------------------------------------

  /**
   * The fields or variants of a derive input, renamed: a struct's fields and
   * an enum's variants by the container's rules, each variant's fields by
   * that variant's own rules.
   */
  function DataOf(env: Env, data: InputData, rules: RenameAllRules): (r: Data)
    requires !data.UnionData?
    ensures data.StructData? ==>
      r == StructFields(StructOf(env, data.fields).0, RenameFields(env, StructOf(env, data.fields).1, rules))
    ensures data.EnumData? ==>
      r == EnumVariants(RenameVariants(env, VariantsOf(env, data.variants), rules))
  {
    match data
    case StructData(fs) =>
      var (style, fields) := StructOf(env, fs);
      StructFields(style, RenameFields(env, fields, rules))
    case EnumData(vs) =>
      EnumVariants(RenameVariants(env, VariantsOf(env, vs), rules))
  }

  /** What building the fields or variants reports. */
  function DataDiagnostics(env: Env, data: InputData, ctx: Ctx): (r: Ctx)
    requires !data.UnionData?
    ensures |r| >= |ctx| && r[..|ctx|] == ctx
  {
    match data
    case StructData(fs) => StructDiagnostics(env, fs, ctx)
    case EnumData(vs) => EnumDiagnostics(env, vs, ctx)
  }

  /**
   * `Container::new`: a union is reported and yields nothing. Otherwise the
   * container carries the input's identifier, its parsed attributes, which
   * record whether any field is flattened, and its renamed fields or variants.
   */
  function New(env: Env, input: DeriveInput, ctx: Ctx): (r: (Option<Container>, Ctx))
    ensures r.0.None? <==> input.data.UnionData?
    ensures var (cattrs, c1) := ContainerAttrs.FromAst(env, input, ctx);
      && (input.data.UnionData? ==> r.1 == c1 + [UnionMessage])
      && (!input.data.UnionData? ==>
            && r.0.value.ident == input.ident
            && r.0.value.data == DataOf(env, input.data, cattrs.rules)
            && r.0.value.attrs == cattrs.(hasFlatten := AnyFlatten(r.0.value.data))
            && r.1 == DataDiagnostics(env, input.data, c1))
    ensures |r.1| >= |ctx| && r.1[..|ctx|] == ctx
  {
    var (cattrs, c1) := ContainerAttrs.FromAst(env, input, ctx);
    if input.data.UnionData? then
      assert (c1 + [UnionMessage])[..|ctx|] == c1[..|ctx|];
      (None, c1 + [UnionMessage])
    else
      var data := DataOf(env, input.data, cattrs.rules);
      var attrs := if AnyFlatten(data) then ContainerAttrs.MarkHasFlatten(cattrs) else cattrs;
      var c2 := DataDiagnostics(env, input.data, c1);
      assert c2[..|ctx|] == c1[..|ctx|];
      (Some(Container(input.ident, data, attrs)), c2)
  }

  // ---------------------------------------------------------------------------
  // Where the names end up
  // ---------------------------------------------------------------------------

  /** The field definitions of a struct or variant body; a unit body has none. */
  function FieldDefsOf(fields: Fields): seq<FieldDef> {
    match fields
    case Named(fs) => fs
    case Unnamed(fs) => fs
    case Unit => []
  }

  /** Parsing and renaming leave each field's identifier and type as written. */
  lemma StructOfFields(env: Env, fields: Fields)
    ensures StructOf(env, fields).1 == FieldsOf(env, FieldDefsOf(fields))
    ensures |StructOf(env, fields).1| == |FieldDefsOf(fields)|
  {
  }

  /**
   * A renamed field is known by its first explicit name on each side, else by
   * its source name passed through that side's rule.
   */
  lemma RenamedFieldName(env: Env, defs: seq<FieldDef>, rules: RenameAllRules, i: nat)
    requires i < |defs|
    ensures |RenameFields(env, FieldsOf(env, defs), rules)| == |defs|
    ensures var f := RenameFields(env, FieldsOf(env, defs), rules)[i];
      var items := RedisItems(defs[i].attrs);
      var src := FieldAttrs.FieldSourceName(defs[i].ident, i);
      && f.ident == defs[i].ident && f.index == i && f.ty == defs[i].ty
      && f.attrs.name.serialize
         == (if |NameItems.SerValues(items)| > 0 then NameItems.SerValues(items)[0] else ApplyToField(env, rules.serialize, src))
      && f.attrs.name.deserialize
         == (if |NameItems.DeValues(items)| > 0 then NameItems.DeValues(items)[0] else ApplyToField(env, rules.deserialize, src))
  {
    var items := RedisItems(defs[i].attrs);
    var src := FieldAttrs.FieldSourceName(defs[i].ident, i);
    FieldAttrs.FieldAttrOfItemsMeaning(env, src, items);
    var p := FieldsOf(env, defs)[i];
    assert p.attrs.name == FieldAttrOf(env, defs[i], i).name;
  }

  /**
   * In a struct, every field not explicitly renamed is renamed by the
   * container's `rename_all` rules.
   */
  lemma StructFieldsUseContainerRules(env: Env, input: DeriveInput, ctx: Ctx, i: nat)
    requires input.data.StructData? && i < |FieldDefsOf(input.data.fields)|
    ensures var c := New(env, input, ctx).0.value;
      var defs := FieldDefsOf(input.data.fields);
      && c.data.StructFields? && |c.data.fields| == |defs|
      && c.data.fields[i] == RenameFields(env, FieldsOf(env, defs), c.attrs.rules)[i]
  {
    StructOfFields(env, input.data.fields);
  }

  /**
   * In an enum, a variant not explicitly renamed is renamed by the
   * container's rules, but its fields only by the variant's own rules: the
   * container's rules never reach them.
   */
  lemma VariantFieldsUseVariantRules(env: Env, input: DeriveInput, ctx: Ctx, k: nat, i: nat)
    requires input.data.EnumData? && k < |input.data.variants|
    requires i < |FieldDefsOf(input.data.variants[k].fields)|
    ensures var c := New(env, input, ctx).0.value;
      var v := input.data.variants[k];
      var vattrs := VariantAttrs.VariantAttrOfItems(env, Strings.Unraw(v.ident), RedisItems(v.attrs));
      && c.data.EnumVariants? && |c.data.variants| == |input.data.variants|
      && c.data.variants[k].attrs == VariantAttrs.RenameByRules(env, vattrs, c.attrs.rules)
      && |c.data.variants[k].fields| == |FieldDefsOf(v.fields)|
      && c.data.variants[k].fields[i] == RenameFields(env, FieldsOf(env, FieldDefsOf(v.fields)), vattrs.rules)[i]
  {
    StructOfFields(env, input.data.variants[k].fields);
  }
}
