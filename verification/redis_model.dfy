/**
 * `redis_model::derive`: the `RedisModel` implementation of a struct with
 * named fields — its key prefix and the field that holds its primary key.
 * The generated accessors are modelled on a record that maps each field's
 * identifier to its value.
 */
module RedisModels {
  import opened Wrappers
  import opened Accumulators
  import opened Containers

  const EnumModelMessage: string := "RedisModel is only supported for structs"

  /** What the generated `impl RedisModel` fixes: the type, the prefix and the primary-key field. */
  datatype ModelImpl = ModelImpl(typeName: string, prefixKey: string, pkIdent: string)

  /** The position of the first field flagged `primary_key`, searching from `from`. */
  function FirstPrimaryKey(fields: seq<Field>, from: nat): (r: Option<nat>)
    requires from <= |fields|
    ensures r.Some? ==> from <= r.value < |fields| && fields[r.value].attrs.primaryKey
    ensures r.Some? ==> forall j :: from <= j < r.value ==> !fields[j].attrs.primaryKey
    ensures r.None? <==> forall j :: from <= j < |fields| ==> !fields[j].attrs.primaryKey
    decreases |fields| - from
  {
    if from == |fields| then None
    else if fields[from].attrs.primaryKey then Some(from)
    else FirstPrimaryKey(fields, from + 1)
  }

  /**
   * The primary-key identifier: that of the first field flagged
   * `primary_key` (unwrapping it panics for an unnamed field), else `id`.
   */
  function PkIdent(fields: seq<Field>): (r: Result<string, string>)
    ensures (forall j :: 0 <= j < |fields| ==> !fields[j].attrs.primaryKey) ==> r == Ok(IdName)
    ensures forall k :: 0 <= k < |fields| && fields[k].attrs.primaryKey
                        && (forall j :: 0 <= j < k ==> !fields[j].attrs.primaryKey) ==>
              r == (if fields[k].ident.Some? then Ok(fields[k].ident.value) else Err(UnwrapNoneMessage))
  {
    match FirstPrimaryKey(fields, 0)
    case None => Ok(IdName)
    case Some(k) =>
      if fields[k].ident.Some? then Ok(fields[k].ident.value) else Err(UnwrapNoneMessage)
  }

  /** Whether some field is declared under the identifier. */
  predicate HasIdent(fields: seq<Field>, ident: string) {
    exists i :: 0 <= i < |fields| && fields[i].ident == Some(ident)
  }

  /**
   * `redis_model::derive`: an enum, and a struct that does not have named
   * fields, is rejected with one report; so is a struct none of whose fields
   * carries the primary-key identifier. Otherwise the implementation.
   */
  function Derive(cont: Container, ctx: Ctx): (r: (Derived<ModelImpl>, Ctx))
    ensures cont.data.EnumVariants? ==> r == (Rejected, ctx + [EnumModelMessage])
    ensures cont.data.StructFields? && cont.data.style != StructStyle ==>
              r == (Rejected, ctx + [UnsupportedStyleMessage(cont.data.style)])
    ensures r.0.Generated? <==>
      (cont.data.StructFields? && cont.data.style == StructStyle && PkIdent(cont.data.fields).Ok?
       && HasIdent(cont.data.fields, PkIdent(cont.data.fields).value))
    ensures r.0.Generated? ==>
      r == (Generated(ModelImpl(cont.ident, cont.attrs.prefixKey, PkIdent(cont.data.fields).value)), ctx)
    ensures r.0.Rejected? ==> |r.1| == |ctx| + 1 && r.1[..|ctx|] == ctx
    ensures r.0.Panicked? ==> r.1 == ctx
  {
    match cont.data
    case EnumVariants(_) => (Rejected, ctx + [EnumModelMessage])
    case StructFields(style, fields) =>
      if style != StructStyle then (Rejected, ctx + [UnsupportedStyleMessage(style)])
      else match PkIdent(fields)
        case Err(m) => (Panicked(m), ctx)
        case Ok(pk) =>
          if !HasIdent(fields, pk) then (Rejected, ctx + [NoPrimaryKeyMessage])
          else (Generated(ModelImpl(cont.ident, cont.attrs.prefixKey, pk)), ctx)
  }

  // ---------------------------------------------------------------------------
  // The generated accessors
  // ---------------------------------------------------------------------------

  /** A value of the model type: each field's identifier to its value. */
  type Record = map<string, string>

  /** `_prefix_key()`. */
  function PrefixKey(m: ModelImpl): string {
    m.prefixKey
  }

  /** `_get_pk(&self)`: the value of the primary-key field. */
  function GetPk(m: ModelImpl, rec: Record): (r: string)
    requires m.pkIdent in rec
    ensures r in rec.Values
  {
    rec[m.pkIdent]
  }

  /** `_set_pk(&mut self, pk)`: the record with only the primary-key field replaced. */
  function SetPk(m: ModelImpl, rec: Record, pk: string): (r: Record)
    requires m.pkIdent in rec
    ensures r.Keys == rec.Keys
    ensures forall k :: k in rec && k != m.pkIdent ==> r[k] == rec[k]
  {
    rec[m.pkIdent := pk]
  }

  /** Reading the key after setting it gives the value set. */
  lemma GetAfterSet(m: ModelImpl, rec: Record, pk: string)
    requires m.pkIdent in rec
    ensures GetPk(m, SetPk(m, rec, pk)) == pk
  {
  }

  /** Setting the key to what it already holds changes nothing, and the last of two settings wins. */
  lemma SetPkLaws(m: ModelImpl, rec: Record, a: string, b: string)
    requires m.pkIdent in rec
    ensures SetPk(m, rec, GetPk(m, rec)) == rec
    ensures SetPk(m, SetPk(m, rec, a), b) == SetPk(m, rec, b)
  {
  }

  /** The prefix of a derived implementation is the container's, verbatim: the type name unless one is given. */
  lemma DerivedPrefix(cont: Container, ctx: Ctx)
    requires Derive(cont, ctx).0.Generated?
    ensures PrefixKey(Derive(cont, ctx).0.value) == cont.attrs.prefixKey
    ensures Derive(cont, ctx).0.value.typeName == cont.ident
  {
  }

  /**
   * The primary-key field of a derived implementation is a field of the
   * struct: the first flagged `primary_key`, or the one named `id` when none
   * is flagged.
   */
  lemma DerivedKeyIsAField(cont: Container, ctx: Ctx)
    requires Derive(cont, ctx).0.Generated?
    ensures var pk := Derive(cont, ctx).0.value.pkIdent;
      && cont.data.StructFields?
      && HasIdent(cont.data.fields, pk)
      && (match FirstPrimaryKey(cont.data.fields, 0)
          case Some(k) => cont.data.fields[k].ident == Some(pk)
          case None => pk == IdName)
  {
  }
}
