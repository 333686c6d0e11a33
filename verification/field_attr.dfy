/**
 * `FieldAttr`: what the `#[redis(...)]` attributes of one struct field (or
 * one field of an enum variant) say about it.
 */
module FieldAttrs {
  import opened Wrappers
  import opened Strings
  import opened Syntax
  import opened Symbols
  import opened Accumulators
  import opened Collaborators
  import opened Names
  import opened NameItems
  import opened AttrWalk

  datatype FieldAttr = FieldAttr(
    name: Name,
    default: DefaultPolicy,
    primaryKey: bool,
    index: bool,
    sortable: bool,
    fts: bool,
    skipDeserializing: bool,
    skipSerializing: bool,
    flatten: bool
  )

  datatype FieldAcc = FieldAcc(
    names: NameAcc,
    flatten: BoolAttr,
    skipDeserializing: BoolAttr,
    skipSerializing: BoolAttr,
    primaryKey: BoolAttr,
    index: BoolAttr,
    sortable: BoolAttr,
    fts: BoolAttr
  )

  const FreshField: FieldAcc := FieldAcc(
    FreshNames, NewBool(FLATTEN), NewBool(SKIP_DESERIALIZING), NewBool(SKIP_SERIALIZING),
    NewBool(PRIMARY_KEY), NewBool(INDEX), NewBool(SORTABLE), NewBool(FULL_TEXT_SEARCH))

  const PrimaryKeyValueMessage: string := "unexpected value for primary_key, use just #[redis(primary_key)]"
  const IndexValueMessage: string := "unexpected value for index, use #[redis(index)]"
  const SortableValueMessage: string := "unexpected value for sortable, use #[redis(sortable)]"
  const FtsValueMessage: string := "unexpected value for full_text_search, use #[redis(full_text_search)]"

  /** The name a field is known by before any renaming: its identifier without `r#`, or its position. */
  function FieldSourceName(ident: Option<string>, index: nat): (r: string)
    ensures ident.Some? ==> !StartsWith(r, "r#") && exists k: nat :: ident.value == Repeat("r#", k) + r
    ensures ident.None? ==> AllDigits(r) && DigitsValue(r) == index
  {
    match ident
    case Some(id) => TrimStartMatches(id, "r#")
    case None => NatToStringValue(index); NatToString(index)
  }

  /** One item of a field attribute. */
  function FieldStep(env: Env, acc: FieldAcc, m: MetaItem): (FieldAcc, seq<string>) {
    if IsNameItem(m) then
      var (n, d) := NameStep(env, acc.names, m);
      (acc.(names := n), d)
    else if IsWordOf(m, PRIMARY_KEY) then
      var (b, d) := SetTrue(acc.primaryKey, []);
      (acc.(primaryKey := b), d)
    else if IsValueOf(m, PRIMARY_KEY) then (acc, [PrimaryKeyValueMessage])
    else if IsWordOf(m, INDEX) then
      var (b, d) := SetTrue(acc.index, []);
      (acc.(index := b), d)
    else if IsValueOf(m, INDEX) then (acc, [IndexValueMessage])
    else if IsWordOf(m, SORTABLE) then
      var (b, d) := SetTrue(acc.sortable, []);
      (acc.(sortable := b), d)
    else if IsValueOf(m, SORTABLE) then (acc, [SortableValueMessage])
    else if IsWordOf(m, FULL_TEXT_SEARCH) then
      var (b, d) := SetTrue(acc.fts, []);
      (acc.(fts := b), d)
    else if IsValueOf(m, FULL_TEXT_SEARCH) then (acc, [FtsValueMessage])
    else if IsWordOf(m, FLATTEN) then
      var (b, d) := SetTrue(acc.flatten, []);
      (acc.(flatten := b), d)
    else if m.LitItem? then (acc, [UnexpectedLiteralMessage])
    else (acc, [UnknownFieldMessage(m.path)])
  }

  function FieldStepFn(env: Env): StepFn<FieldAcc> {
    (acc, m) => FieldStep(env, acc, m)
  }

  lemma FieldStepNames(env: Env, acc: FieldAcc, m: MetaItem)
    ensures FieldStep(env, acc, m).0.names == if IsNameItem(m) then NameStep(env, acc.names, m).0 else acc.names
    ensures FieldStep(env, acc, m).0.skipSerializing == acc.skipSerializing
    ensures FieldStep(env, acc, m).0.skipDeserializing == acc.skipDeserializing
  {
  }

  lemma FieldStepFlags(env: Env, acc: FieldAcc, m: MetaItem)
    ensures GetBool(FieldStep(env, acc, m).0.primaryKey) <==> GetBool(acc.primaryKey) || IsWordOf(m, PRIMARY_KEY)
    ensures GetBool(FieldStep(env, acc, m).0.index) <==> GetBool(acc.index) || IsWordOf(m, INDEX)
    ensures GetBool(FieldStep(env, acc, m).0.sortable) <==> GetBool(acc.sortable) || IsWordOf(m, SORTABLE)
    ensures GetBool(FieldStep(env, acc, m).0.fts) <==> GetBool(acc.fts) || IsWordOf(m, FULL_TEXT_SEARCH)
    ensures GetBool(FieldStep(env, acc, m).0.flatten) <==> GetBool(acc.flatten) || IsWordOf(m, FLATTEN)
  {
    if IsNameItem(m) {
      assert !m.Word? || PathIs(m.path, DEFAULT);
    }
  }

  /** The `= value` form of a flag keyword is reported and sets nothing. */
  lemma FlagValueFormsRejected(env: Env, acc: FieldAcc, m: MetaItem)
    ensures IsValueOf(m, PRIMARY_KEY) ==> FieldStep(env, acc, m) == (acc, [PrimaryKeyValueMessage])
    ensures IsValueOf(m, INDEX) ==> FieldStep(env, acc, m) == (acc, [IndexValueMessage])
    ensures IsValueOf(m, SORTABLE) ==> FieldStep(env, acc, m) == (acc, [SortableValueMessage])
    ensures IsValueOf(m, FULL_TEXT_SEARCH) ==> FieldStep(env, acc, m) == (acc, [FtsValueMessage])
  {
  }

  /** The keywords a field attribute understands. */
  const FieldKeywords: seq<string> :=
    ["rename", "alias", "default", "primary_key", "index", "sortable", "full_text_search", "flatten"]

  /**
   * A bare word that is no field keyword is reported as unknown and sets
   * nothing; `skip_serializing` and `skip_deserializing` are such words.
   */
  lemma UnknownWordOnField(env: Env, acc: FieldAcc, p: Path)
    requires GetIdent(p).Some? && GetIdent(p).value !in FieldKeywords
    ensures FieldStep(env, acc, Word(p)) == (acc, [UnknownFieldMessage(p)])
  {
  }

  /** After the items: the shared accumulators hold what `FoldNames` computes, and each flag is set iff its bare keyword occurs. */
  lemma {:induction false} FieldFold(env: Env, items: seq<MetaItem>, acc: FieldAcc)
    ensures FoldState(items, acc, FieldStepFn(env)).names == FoldNames(env, items, acc.names)
    ensures GetBool(FoldState(items, acc, FieldStepFn(env)).primaryKey) <==> GetBool(acc.primaryKey) || HasWord(items, PRIMARY_KEY)
    ensures GetBool(FoldState(items, acc, FieldStepFn(env)).index) <==> GetBool(acc.index) || HasWord(items, INDEX)
    ensures GetBool(FoldState(items, acc, FieldStepFn(env)).sortable) <==> GetBool(acc.sortable) || HasWord(items, SORTABLE)
    ensures GetBool(FoldState(items, acc, FieldStepFn(env)).fts) <==> GetBool(acc.fts) || HasWord(items, FULL_TEXT_SEARCH)
    ensures GetBool(FoldState(items, acc, FieldStepFn(env)).flatten) <==> GetBool(acc.flatten) || HasWord(items, FLATTEN)
    ensures FoldState(items, acc, FieldStepFn(env)).skipSerializing == acc.skipSerializing
    ensures FoldState(items, acc, FieldStepFn(env)).skipDeserializing == acc.skipDeserializing
    decreases |items|
  {
    if |items| > 0 {
      var m := items[0];
      var acc1 := FieldStep(env, acc, m).0;
      assert FoldState(items, acc, FieldStepFn(env)) == FoldState(items[1..], acc1, FieldStepFn(env));
      FieldStepNames(env, acc, m);
      FieldStepFlags(env, acc, m);
      FieldFold(env, items[1..], acc1);
      HasWordCons(items, PRIMARY_KEY);
      HasWordCons(items, INDEX);
      HasWordCons(items, SORTABLE);
      HasWordCons(items, FULL_TEXT_SEARCH);
      HasWordCons(items, FLATTEN);
    }
  }

  /** The resolved name and default, given the final accumulators. */
  function Resolve(src: string, acc: FieldAcc): FieldAttr {
    FieldAttr(
      FromAttrs(src, acc.names.ser, acc.names.de, Some(acc.names.aliases)),
      match acc.names.default.value
      case None => NoDefault
      case Some(d) => d,
      GetBool(acc.primaryKey), GetBool(acc.index), GetBool(acc.sortable), GetBool(acc.fts),
      GetBool(acc.skipDeserializing), GetBool(acc.skipSerializing), GetBool(acc.flatten))
  }

  /** The attributes parsed from the items of a field's `redis` attributes. */
  function FieldAttrOfItems(env: Env, src: string, items: seq<MetaItem>): FieldAttr {
    Resolve(src, FoldState(items, FreshField, FieldStepFn(env)))
  }

  /**
   * `FieldAttr::from_ast`: only the items of `redis` list attributes decide
   * the result, and diagnostics are only ever added.
   */
  function FromAst(env: Env, ident: Option<string>, index: nat, attrs: seq<Attribute>, ctx: Ctx): (r: (FieldAttr, Ctx))
    ensures r.0 == FieldAttrOfItems(env, FieldSourceName(ident, index), RedisItems(attrs))
    ensures |r.1| >= |ctx| && r.1[..|ctx|] == ctx
  {
    var (acc, c) := WalkAttrs(attrs, FreshField, ctx, FieldStepFn(env));
    WalkAttrsState(attrs, FreshField, ctx, FieldStepFn(env));
    WalkAttrsExtends(attrs, FreshField, ctx, FieldStepFn(env));
    (Resolve(FieldSourceName(ident, index), acc), c)
  }

  /**
   * What the items of a field's attributes mean: each flag is set iff its
   * bare keyword occurs; the serialize and deserialize names are the first
   * candidates offered, else the source name; the aliases are every alias
   * candidate, sorted and without repeats; the default is the first one
   * offered. No item sets a skip flag, so both are always false.
   */
  lemma FieldAttrOfItemsMeaning(env: Env, src: string, items: seq<MetaItem>)
    ensures var r := FieldAttrOfItems(env, src, items);
      && (r.primaryKey <==> HasWord(items, PRIMARY_KEY))
      && (r.index <==> HasWord(items, INDEX))
      && (r.sortable <==> HasWord(items, SORTABLE))
      && (r.fts <==> HasWord(items, FULL_TEXT_SEARCH))
      && (r.flatten <==> HasWord(items, FLATTEN))
      && !r.skipSerializing && !r.skipDeserializing
      && (r.name.serializeRenamed <==> |SerValues(items)| > 0)
      && r.name.serialize == (if |SerValues(items)| > 0 then SerValues(items)[0] else src)
      && (r.name.deserializeRenamed <==> |DeValues(items)| > 0)
      && r.name.deserialize == (if |DeValues(items)| > 0 then DeValues(items)[0] else src)
      && (forall y :: y in r.name.aliasSet <==> y in AliasValues(items))
      && r.default == (if |DefaultValues(env, items)| > 0 then DefaultValues(env, items)[0] else NoDefault)
  {
    FieldFold(env, items, FreshField);
    FoldNamesFirstWins(env, items, FreshNames);
    FoldNamesAliases(env, items, FreshNames);
  }

  /**
   * `FieldAttr::rename_by_rules`: each side not explicitly renamed is passed
   * through its rule; the aliases and everything else stay as they are.
   */
  function RenameByRules(env: Env, a: FieldAttr, rules: RenameAllRules): (r: FieldAttr)
    ensures r.name.serialize == if a.name.serializeRenamed then a.name.serialize
                                 else ApplyToField(env, rules.serialize, a.name.serialize)
    ensures r.name.deserialize == if a.name.deserializeRenamed then a.name.deserialize
                                   else ApplyToField(env, rules.deserialize, a.name.deserialize)
    ensures r.name.aliasSet == a.name.aliasSet
    ensures r.name.serializeRenamed == a.name.serializeRenamed && r.name.deserializeRenamed == a.name.deserializeRenamed
    ensures r.(name := a.name) == a
  {
    var n := a.name;
    var n1 := if n.serializeRenamed then n else n.(serialize := ApplyToField(env, rules.serialize, n.serialize));
    var n2 := if n1.deserializeRenamed then n1 else n1.(deserialize := ApplyToField(env, rules.deserialize, n1.deserialize));
    a.(name := n2)
  }

  /** Without rules, renaming changes nothing. */
  lemma RenameWithoutRules(env: Env, a: FieldAttr)
    ensures RenameByRules(env, a, NoRules) == a
  {
  }

  /** An explicitly renamed field keeps both names whatever the rules. */
  lemma ExplicitNamesSurviveRules(env: Env, a: FieldAttr, rules: RenameAllRules)
    requires a.name.serializeRenamed && a.name.deserializeRenamed
    ensures RenameByRules(env, a, rules) == a
  {
  }

  /** `FieldAttr::flatten`. */
  function Flatten(a: FieldAttr): bool {
    a.flatten
  }
}
