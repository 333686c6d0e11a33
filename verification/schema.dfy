/**
 * The RediSearch index schemas generated for a struct: the `HashModel`
 * schema (`ON HASH`), the `JsonModel` schema (`ON JSON`, fields addressed by
 * JSON path) and the `RedisSearchModel` schema, which reads the same as the
 * `HashModel` one. Each field contributes one clause, possibly empty, and the
 * clauses are joined by single spaces.
 */
module Schema {
  import opened Wrappers
  import opened Strings
  import opened Syntax
  import opened Accumulators
  import opened Names
  import opened TypeExt
  import opened Containers
  import FieldAttrs

  /** The report for an enum from the `HashModel` and `JsonModel` schemas (spelled as in the source). */
  const EnumSchemaMessage: string := "Enum is not currenlty supported for redissearch_model"

  /** The report for an enum from `RedisSearchModel`. */
  const SearchEnumMessage: string := "Enum is not supported for redissearch_model"

  /** The `expect` message when a list field's inner type cannot be taken. */
  const FieldInnerTypeMessage: string := "inner type of list-like type"

  /** The `expect` message of the `RedisSearchModel` type clause for the same failure. */
  const SearchInnerTypeMessage: string := "Getting inner type for list like collection"

  const TagSuffix: string := " TAG SEPARATOR |"
  const NumericSuffix: string := " NUMERIC"
  const SortableSuffix: string := " SORTABLE"

  /** How a field is addressed: by its name in a hash, by a JSON path in a document. */
  datatype Dialect = HashDialect | JsonDialect

  // ---------------------------------------------------------------------------
  // Clauses
  // ---------------------------------------------------------------------------

  /** Where the value is found: the field name, or `$.name`. */
  function Source(d: Dialect, name: string): string {
    match d
    case HashDialect => name
    case JsonDialect => "$." + name
  }

  /** How a clause names its field: `name`, or `$.name AS name`. */
  function Label(d: Dialect, name: string): string {
    match d
    case HashDialect => name
    case JsonDialect => Source(d, name) + " AS " + name
  }

  function TagClause(d: Dialect, name: string): string {
    Label(d, name) + TagSuffix
  }

  function NumericClause(d: Dialect, name: string): string {
    Label(d, name) + NumericSuffix
  }

  /** A tag, and the same value once more as full text under `name_fts`. */
  function FullTextClause(d: Dialect, name: string): string {
    TagClause(d, name) + " " + Source(d, name) + " AS " + name + "_fts TEXT"
  }

  /** `value` followed by `SORTABLE` when the field is sortable. */
  function WithSortable(value: string, sortable: bool): string {
    if sortable then value + SortableSuffix else value
  }

  /**
   * The clause for a type that is not a list: numbers are `NUMERIC`, a
   * `String` (or `Option<String>`) with `full_text_search` is also full text,
   * anything else is a tag. Asking whether the type is `String` can panic.
   */
  function LeafClause(d: Dialect, attrs: FieldAttrs.FieldAttr, ty: Type): (r: Result<string, string>)
    ensures r.Err? <==> !IsNumeric(ty) && IsIdent(ty, "String").Err?
    ensures IsNumeric(ty) ==> r == Ok(NumericClause(d, SerializeName(attrs.name)))
    ensures !IsNumeric(ty) && IsIdent(ty, "String") == Ok(false) ==> r == Ok(TagClause(d, SerializeName(attrs.name)))
    ensures !IsNumeric(ty) && IsIdent(ty, "String") == Ok(true) ==>
      r == Ok(if attrs.fts then FullTextClause(d, SerializeName(attrs.name)) else TagClause(d, SerializeName(attrs.name)))
  {
    var name := SerializeName(attrs.name);
    if IsNumeric(ty) then Ok(NumericClause(d, name))
    else match IsIdent(ty, "String")
      case Err(e) => Err(e)
      case Ok(isString) => Ok(if isString && attrs.fts then FullTextClause(d, name) else TagClause(d, name))
  }

  lemma InnerTypeIsSmaller(ty: Type)
    requires GetInnerType(ty).Some?
    ensures GetInnerType(ty).value < ty
  {
    var seg := ty.path.segments[0];
    assert seg in ty.path.segments;
    assert seg.args.args[0] in seg.args.args;
  }

  /**
   * `schema_for_type`: a list is described by its inner type, taken with a
   * panic (`unwrapMessage`) when there is none; every level of the recursion
   * appends its own `SORTABLE`.
   */
  function SchemaForType(d: Dialect, unwrapMessage: string, attrs: FieldAttrs.FieldAttr, ty: Type): Result<string, string>
    decreases ty
  {
    var base :=
      if IsListCollection(ty) then
        match GetInnerType(ty)
        case None => Err(unwrapMessage)
        case Some(inner) =>
          InnerTypeIsSmaller(ty);
          SchemaForType(d, unwrapMessage, attrs, inner)
      else LeafClause(d, attrs, ty);
    match base
    case Err(e) => Err(e)
    case Ok(s) => Ok(WithSortable(s, attrs.sortable))
  }

  /** The type reached by taking inner types while the type is a list, if every step succeeds. */
  function Innermost(ty: Type): Option<Type>
    decreases ty
  {
    if !IsListCollection(ty) then Some(ty)
    else match GetInnerType(ty)
      case None => None
      case Some(inner) =>
        InnerTypeIsSmaller(ty);
        Innermost(inner)
  }

  /** How many lists are nested around the innermost type. */
  function ListDepth(ty: Type): nat
    decreases ty
  {
    if !IsListCollection(ty) then 0
    else match GetInnerType(ty)
      case None => 0
      case Some(inner) =>
        InnerTypeIsSmaller(ty);
        1 + ListDepth(inner)
  }

  /** One ` SORTABLE` per level when the field is sortable, else nothing. */
  function Sortables(sortable: bool, levels: nat): string {
    if sortable then Repeat(SortableSuffix, levels) else ""
  }

  /**
   * The closed form of `schema_for_type`: the clause of the innermost type,
   * followed by one `SORTABLE` per level — the list levels and the innermost
   * one — when the field is sortable.
   */
  function ClosedForm(d: Dialect, m: string, attrs: FieldAttrs.FieldAttr, ty: Type): Result<string, string> {
    match Innermost(ty)
    case None => Err(m)
    case Some(leaf) =>
      match LeafClause(d, attrs, leaf)
      case Err(e) => Err(e)
      case Ok(s) => Ok(s + Sortables(attrs.sortable, ListDepth(ty) + 1))
  }

  lemma SortablesStep(s: string, sortable: bool, k: nat)
    ensures WithSortable(s + Sortables(sortable, k), sortable) == s + Sortables(sortable, k + 1)
  {
    if sortable {
      RepeatSnoc(SortableSuffix, k);
      assert Repeat(SortableSuffix, k + 1) == SortableSuffix + Repeat(SortableSuffix, k);
      assert s + Repeat(SortableSuffix, k) + SortableSuffix == s + (Repeat(SortableSuffix, k) + SortableSuffix);
    } else {
      assert s + "" == s;
    }
  }

  /** Through one list level the closed form gains one `SORTABLE`. */
  lemma ClosedFormStep(d: Dialect, m: string, attrs: FieldAttrs.FieldAttr, ty: Type)
    requires IsListCollection(ty) && GetInnerType(ty).Some?
    ensures ClosedForm(d, m, attrs, ty) ==
      match ClosedForm(d, m, attrs, GetInnerType(ty).value)
      case Err(e) => Err(e)
      case Ok(s) => Ok(WithSortable(s, attrs.sortable))
  {
    var inner := GetInnerType(ty).value;
    assert Innermost(ty) == Innermost(inner) && ListDepth(ty) == ListDepth(inner) + 1;
    if Innermost(inner).Some? && LeafClause(d, attrs, Innermost(inner).value).Ok? {
      SortablesStep(LeafClause(d, attrs, Innermost(inner).value).value, attrs.sortable, ListDepth(inner) + 1);
    }
  }

  lemma ClosedFormLeaf(d: Dialect, m: string, attrs: FieldAttrs.FieldAttr, ty: Type)
    requires !IsListCollection(ty)
    ensures ClosedForm(d, m, attrs, ty) ==
      match LeafClause(d, attrs, ty)
      case Err(e) => Err(e)
      case Ok(s) => Ok(WithSortable(s, attrs.sortable))
  {
    assert Innermost(ty) == Some(ty) && ListDepth(ty) == 0;
    if LeafClause(d, attrs, ty).Ok? {
      SortablesStep(LeafClause(d, attrs, ty).value, attrs.sortable, 0);
      assert Sortables(attrs.sortable, 0) == "";
      assert LeafClause(d, attrs, ty).value + "" == LeafClause(d, attrs, ty).value;
    }
  }

  /** `schema_for_type` is its closed form. */
  lemma {:induction false} SchemaForTypeShape(d: Dialect, m: string, attrs: FieldAttrs.FieldAttr, ty: Type)
    ensures SchemaForType(d, m, attrs, ty) == ClosedForm(d, m, attrs, ty)
    decreases ty
  {
    if !IsListCollection(ty) {
      ClosedFormLeaf(d, m, attrs, ty);
    } else if GetInnerType(ty).Some? {
      InnerTypeIsSmaller(ty);
      SchemaForTypeShape(d, m, attrs, GetInnerType(ty).value);
      ClosedFormStep(d, m, attrs, ty);
    }
  }

  lemma {:induction false} RepeatSnoc(pat: string, k: nat)
    ensures Repeat(pat, k) + pat == pat + Repeat(pat, k)
    decreases k
  {
    if k > 0 {
      RepeatSnoc(pat, k - 1);
      calc {
        Repeat(pat, k) + pat;
        pat + Repeat(pat, k - 1) + pat;
        pat + (Repeat(pat, k - 1) + pat);
        pat + (pat + Repeat(pat, k - 1));
      }
    }
  }

  /**
   * `schema_for_field`: a primary key is always a tag, whatever else is
   * annotated; an indexed field is described by its type; a list field that
   * is not indexed is described by its inner type (for `HashDialect`) or by
   * its own type (for `JsonDialect`, which takes the inner type only to
   * check that it exists); any other field contributes an empty clause.
   */
  function SchemaForField(d: Dialect, unwrapMessage: string, f: Field): (r: Result<string, string>)
    ensures f.attrs.primaryKey ==> r == Ok(TagClause(d, SerializeName(f.attrs.name)))
    ensures !f.attrs.primaryKey && f.attrs.index ==> r == SchemaForType(d, unwrapMessage, f.attrs, f.ty)
    ensures !f.attrs.primaryKey && !f.attrs.index && !IsListCollection(f.ty) ==> r == Ok("")
    ensures !f.attrs.primaryKey && !f.attrs.index && IsListCollection(f.ty) && GetInnerType(f.ty).None? ==>
              r == Err(FieldInnerTypeMessage)
    ensures !f.attrs.primaryKey && !f.attrs.index && IsListCollection(f.ty) && GetInnerType(f.ty).Some? ==>
              r == SchemaForType(d, unwrapMessage, f.attrs, if d == JsonDialect then f.ty else GetInnerType(f.ty).value)
  {
    if f.attrs.primaryKey then Ok(TagClause(d, SerializeName(f.attrs.name)))
    else if f.attrs.index then SchemaForType(d, unwrapMessage, f.attrs, f.ty)
    else if IsListCollection(f.ty) then
      match GetInnerType(f.ty)
      case None => Err(FieldInnerTypeMessage)
      case Some(inner) => SchemaForType(d, unwrapMessage, f.attrs, if d == JsonDialect then f.ty else inner)
    else Ok("")
  }

  /** The clauses of the fields in declaration order; the first panic ends the generation. */
  function FieldClauses(d: Dialect, unwrapMessage: string, fields: seq<Field>): (r: Result<seq<string>, string>)
    ensures r.Ok? <==> forall i :: 0 <= i < |fields| ==> SchemaForField(d, unwrapMessage, fields[i]).Ok?
    ensures r.Ok? ==> (|r.value| == |fields|
      && forall i :: 0 <= i < |fields| ==> r.value[i] == SchemaForField(d, unwrapMessage, fields[i]).value)
    decreases |fields|
  {
    if |fields| == 0 then Ok([])
    else
      match SchemaForField(d, unwrapMessage, fields[0])
      case Err(e) => Err(e)
      case Ok(c) =>
        var rest := FieldClauses(d, unwrapMessage, fields[1..]);
        assert forall i :: 1 <= i < |fields| ==> fields[i] == fields[1..][i - 1];
        match rest
        case Err(e) => Err(e)
        case Ok(cs) => Ok([c] + cs)
  }

  // ---------------------------------------------------------------------------
  // Generators
  // ---------------------------------------------------------------------------

  function HashSchemaText(prefix: string, clauses: seq<string>): string {
    "ON HASH PREFIX 1 " + prefix + " SCHEMA " + Join(clauses, " ")
  }

  /** The clauses are joined and the join is trimmed, but the header keeps its trailing space. */
  function JsonSchemaText(prefix: string, clauses: seq<string>): string {
    "ON JSON PREFIX 1 " + prefix + " SCHEMA " + Trim(Join(clauses, " "))
  }

  /** The `ON HASH PREFIX 1` leading of the only model type. */
  function SearchSchemaText(prefix: string, clauses: seq<string>): string {
    "ON HASH PREFIX 1" + " " + prefix + " SCHEMA " + Join(clauses, " ")
  }

  /**
   * `hash_model::redis_schema::derive`: enums and structs that are not
   * named-field structs are rejected with one report; otherwise the schema,
   * unless a field's clause panics.
   */
  function HashSchema(cont: Container, ctx: Ctx): (r: (Derived<string>, Ctx))
    ensures cont.data.EnumVariants? ==> r == (Rejected, ctx + [EnumSchemaMessage])
    ensures cont.data.StructFields? && cont.data.style != StructStyle ==>
              r == (Rejected, ctx + [UnsupportedStyleMessage(cont.data.style)])
    ensures r.0.Generated? <==>
      (cont.data.StructFields? && cont.data.style == StructStyle && FieldClauses(HashDialect, UnwrapNoneMessage, cont.data.fields).Ok?)
    ensures r.0.Generated? ==>
      r.0.value == HashSchemaText(cont.attrs.prefixKey, FieldClauses(HashDialect, UnwrapNoneMessage, cont.data.fields).value)
      && r.1 == ctx
  {
    match cont.data
    case EnumVariants(_) => (Rejected, ctx + [EnumSchemaMessage])
    case StructFields(style, fields) =>
      if style != StructStyle then (Rejected, ctx + [UnsupportedStyleMessage(style)])
      else match FieldClauses(HashDialect, UnwrapNoneMessage, fields)
        case Err(e) => (Panicked(e), ctx)
        case Ok(cs) => (Generated(HashSchemaText(cont.attrs.prefixKey, cs)), ctx)
  }

  /** `json_model::redis_schema::derive`: as for a hash, in the JSON dialect. */
  function JsonSchema(cont: Container, ctx: Ctx): (r: (Derived<string>, Ctx))
    ensures cont.data.EnumVariants? ==> r == (Rejected, ctx + [EnumSchemaMessage])
    ensures cont.data.StructFields? && cont.data.style != StructStyle ==>
              r == (Rejected, ctx + [UnsupportedStyleMessage(cont.data.style)])
    ensures r.0.Generated? <==>
      (cont.data.StructFields? && cont.data.style == StructStyle && FieldClauses(JsonDialect, UnwrapNoneMessage, cont.data.fields).Ok?)
    ensures r.0.Generated? ==>
      r.0.value == JsonSchemaText(cont.attrs.prefixKey, FieldClauses(JsonDialect, UnwrapNoneMessage, cont.data.fields).value)
      && r.1 == ctx
  {
    match cont.data
    case EnumVariants(_) => (Rejected, ctx + [EnumSchemaMessage])
    case StructFields(style, fields) =>
      if style != StructStyle then (Rejected, ctx + [UnsupportedStyleMessage(style)])
      else match FieldClauses(JsonDialect, UnwrapNoneMessage, fields)
        case Err(e) => (Panicked(e), ctx)
        case Ok(cs) => (Generated(JsonSchemaText(cont.attrs.prefixKey, cs)), ctx)
  }

  /**
   * `redissearch_model::derive`: enums are rejected; for a struct the schema
   * is computed BEFORE the style is checked, so a panicking clause panics
   * even for a tuple struct.
   */
  function SearchSchema(cont: Container, ctx: Ctx): (r: (Derived<string>, Ctx))
    ensures cont.data.EnumVariants? ==> r == (Rejected, ctx + [SearchEnumMessage])
    ensures cont.data.StructFields? && FieldClauses(HashDialect, SearchInnerTypeMessage, cont.data.fields).Err? ==>
              r == (Panicked(FieldClauses(HashDialect, SearchInnerTypeMessage, cont.data.fields).error), ctx)
    ensures r.0.Generated? <==>
      (cont.data.StructFields? && cont.data.style == StructStyle && FieldClauses(HashDialect, SearchInnerTypeMessage, cont.data.fields).Ok?)
    ensures r.0.Rejected? ==> |r.1| == |ctx| + 1
  {
    match cont.data
    case EnumVariants(_) => (Rejected, ctx + [SearchEnumMessage])
    case StructFields(style, fields) =>
      match FieldClauses(HashDialect, SearchInnerTypeMessage, fields)
      case Err(e) => (Panicked(e), ctx)
      case Ok(cs) =>
        if style != StructStyle then (Rejected, ctx + [UnsupportedStyleMessage(style)])
        else (Generated(SearchSchemaText(cont.attrs.prefixKey, cs)), ctx)
  }

  // ---------------------------------------------------------------------------
  // Properties
  // ---------------------------------------------------------------------------

  /** The type clause depends on the panic message only in whether — not where — it panics. */
  lemma {:induction false} SchemaForTypeMessages(d: Dialect, m1: string, m2: string, attrs: FieldAttrs.FieldAttr, ty: Type)
    ensures SchemaForType(d, m1, attrs, ty).Ok? <==> SchemaForType(d, m2, attrs, ty).Ok?
    ensures SchemaForType(d, m1, attrs, ty).Ok? ==> SchemaForType(d, m1, attrs, ty).value == SchemaForType(d, m2, attrs, ty).value
    decreases ty
  {
    if IsListCollection(ty) && GetInnerType(ty).Some? {
      InnerTypeIsSmaller(ty);
      SchemaForTypeMessages(d, m1, m2, attrs, GetInnerType(ty).value);
    }
  }

  lemma {:induction false} FieldClausesMessages(m1: string, m2: string, fields: seq<Field>)
    ensures FieldClauses(HashDialect, m1, fields).Ok? <==> FieldClauses(HashDialect, m2, fields).Ok?
    ensures FieldClauses(HashDialect, m1, fields).Ok? ==>
              FieldClauses(HashDialect, m1, fields).value == FieldClauses(HashDialect, m2, fields).value
  {
    forall i | 0 <= i < |fields|
      ensures SchemaForField(HashDialect, m1, fields[i]).Ok? <==> SchemaForField(HashDialect, m2, fields[i]).Ok?
      ensures SchemaForField(HashDialect, m1, fields[i]).Ok? ==>
                SchemaForField(HashDialect, m1, fields[i]).value == SchemaForField(HashDialect, m2, fields[i]).value
    {
      var f := fields[i];
      SchemaForTypeMessages(HashDialect, m1, m2, f.attrs, f.ty);
      if GetInnerType(f.ty).Some? {
        SchemaForTypeMessages(HashDialect, m1, m2, f.attrs, GetInnerType(f.ty).value);
      }
    }
    if FieldClauses(HashDialect, m1, fields).Ok? {
      var a := FieldClauses(HashDialect, m1, fields).value;
      var b := FieldClauses(HashDialect, m2, fields).value;
      assert |a| == |b|;
      assert forall i :: 0 <= i < |a| ==> a[i] == b[i];
    }
  }

  /**
   * The search schema of a named-field struct is the hash schema: same header,
   * same clauses. They differ only in the message of one panic.
   */
  lemma SearchSchemaIsHashSchema(cont: Container, ctx: Ctx)
    requires cont.data.StructFields? && cont.data.style == StructStyle
    ensures SearchSchema(cont, ctx).0.Generated? <==> HashSchema(cont, ctx).0.Generated?
    ensures SearchSchema(cont, ctx).0.Generated? ==> SearchSchema(cont, ctx) == HashSchema(cont, ctx)
  {
    FieldClausesMessages(SearchInnerTypeMessage, UnwrapNoneMessage, cont.data.fields);
    forall prefix: string, clauses: seq<string>
      ensures SearchSchemaText(prefix, clauses) == HashSchemaText(prefix, clauses)
    {
      assert "ON HASH PREFIX 1" + " " == "ON HASH PREFIX 1 ";
    }
  }

  /** Every rejection is reported: a rejected schema adds exactly one diagnostic. */
  lemma RejectionsAreReported(cont: Container, ctx: Ctx)
    ensures HashSchema(cont, ctx).0.Rejected? ==> |HashSchema(cont, ctx).1| == |ctx| + 1
    ensures JsonSchema(cont, ctx).0.Rejected? ==> |JsonSchema(cont, ctx).1| == |ctx| + 1
    ensures SearchSchema(cont, ctx).0.Rejected? ==> |SearchSchema(cont, ctx).1| == |ctx| + 1
  {
  }

  /** An indexed, sortable `Vec<u32>` is `NUMERIC SORTABLE SORTABLE`: one `SORTABLE` per level. */
  lemma SortableListTwice(d: Dialect, m: string, attrs: FieldAttrs.FieldAttr)
    requires attrs.sortable
    ensures SchemaForType(d, m, attrs, Simple("Vec", Angle([TypeArg(Simple("u32", NoArgs))])))
         == Ok(NumericClause(d, SerializeName(attrs.name)) + SortableSuffix + SortableSuffix)
  {
    var inner := Simple("u32", NoArgs);
    var ty := Simple("Vec", Angle([TypeArg(inner)]));
    assert LastSegment(ty) == Some(Segment("Vec", Angle([TypeArg(inner)])));
    assert IsListCollection(ty);
    assert GetInnerType(ty) == Some(inner);
    assert LastSegment(inner) == Some(Segment("u32", NoArgs));
    assert !IsListCollection(inner) && IsNumeric(inner);
  }

  /**
   * An unindexed list field in a hash is described by its inner type, in a
   * document by its own type, so only the document gets a second `SORTABLE`.
   */
  lemma UnindexedSortableList(f: Field)
    requires !f.attrs.primaryKey && !f.attrs.index && f.attrs.sortable
    requires f.ty == Simple("Vec", Angle([TypeArg(Simple("u32", NoArgs))]))
    ensures SchemaForField(HashDialect, UnwrapNoneMessage, f)
         == Ok(NumericClause(HashDialect, SerializeName(f.attrs.name)) + SortableSuffix)
    ensures SchemaForField(JsonDialect, UnwrapNoneMessage, f)
         == Ok(NumericClause(JsonDialect, SerializeName(f.attrs.name)) + SortableSuffix + SortableSuffix)
  {
    var inner := Simple("u32", NoArgs);
    assert LastSegment(f.ty) == Some(Segment("Vec", Angle([TypeArg(inner)])));
    assert IsListCollection(f.ty);
    assert GetInnerType(f.ty) == Some(inner);
    assert LastSegment(inner) == Some(Segment("u32", NoArgs));
    assert !IsListCollection(inner) && IsNumeric(inner);
    SortableListTwice(JsonDialect, UnwrapNoneMessage, f.attrs);
  }

  // ---------------------------------------------------------------------------
  // The list element read from the segment that was classified
  // ---------------------------------------------------------------------------

  lemma LastInnerTypeIsSmaller(ty: Type)
    requires LastInnerType(ty).Some?
    ensures LastInnerType(ty).value < ty
  {
    var seg := ty.path.segments[|ty.path.segments| - 1];
    assert seg in ty.path.segments;
    assert seg.args.args[0] in seg.args.args;
  }

  /**
   * `schema_for_type` with the list element taken from the last path
   * segment, the one `is_list_collection` looked at, instead of the first.
   */
  function SchemaForTypeCorrected(d: Dialect, unwrapMessage: string, attrs: FieldAttrs.FieldAttr, ty: Type): Result<string, string>
    decreases ty
  {
    var base :=
      if IsListCollection(ty) then
        match LastInnerType(ty)
        case None => Err(unwrapMessage)
        case Some(inner) =>
          LastInnerTypeIsSmaller(ty);
          SchemaForTypeCorrected(d, unwrapMessage, attrs, inner)
      else LeafClause(d, attrs, ty);
    match base
    case Err(e) => Err(e)
    case Ok(s) => Ok(WithSortable(s, attrs.sortable))
  }

  /** Every list level of the type reads the same element from its first and its last segment. */
  predicate SegmentsAgree(ty: Type)
    decreases ty
  {
    IsListCollection(ty) ==>
      GetInnerType(ty) == LastInnerType(ty)
      && (LastInnerType(ty).Some? ==> (LastInnerTypeIsSmaller(ty); SegmentsAgree(LastInnerType(ty).value)))
  }

  /** Where the two readings agree, the corrected schema is the schema as written. */
  lemma {:induction false} CorrectedSchemaAgrees(d: Dialect, m: string, attrs: FieldAttrs.FieldAttr, ty: Type)
    requires SegmentsAgree(ty)
    ensures SchemaForTypeCorrected(d, m, attrs, ty) == SchemaForType(d, m, attrs, ty)
    decreases ty
  {
    if IsListCollection(ty) && LastInnerType(ty).Some? {
      LastInnerTypeIsSmaller(ty);
      CorrectedSchemaAgrees(d, m, attrs, LastInnerType(ty).value);
    }
  }

  /** Corrected, a qualified `std::vec::Vec<T>` is described exactly as `Vec<T>` is. */
  lemma QualifiedListCorrected(d: Dialect, m: string, attrs: FieldAttrs.FieldAttr, inner: Type)
    ensures SchemaForTypeCorrected(d, m, attrs, QualifiedPath("vec", "Vec", inner))
         == SchemaForTypeCorrected(d, m, attrs, Simple("Vec", Angle([TypeArg(inner)])))
    ensures SchemaForTypeCorrected(d, m, attrs, Simple("Vec", Angle([TypeArg(inner)])))
         == match SchemaForTypeCorrected(d, m, attrs, inner)
            case Err(e) => Err(e)
            case Ok(s) => Ok(WithSortable(s, attrs.sortable))
  {
    QualifiedListHasNoInnerType(inner);
    assert IsListCollection(Simple("Vec", Angle([TypeArg(inner)])));
  }
}
