/**
 * `ContainerAttr`: what the `#[redis(...)]` attributes of a struct or enum
 * say about it — its key prefix, its primary key's name, the default for
 * missing fields, its model type and its rename rules.
 */
module ContainerAttrs {
  import opened Wrappers
  import opened Syntax
  import opened Symbols
  import opened Accumulators
  import opened Lits
  import opened Collaborators
  import opened NameItems
  import opened RenameAllItems
  import opened AttrWalk

  datatype ContainerAttr = ContainerAttr(
    prefixKey: string,
    primaryKey: string,
    default: DefaultPolicy,
    rules: RenameAllRules,
    modelType: Derive,
    hasFlatten: bool
  )

  /** `prefix_key` and `key` share one accumulator, labelled `prefix_key`. */
  datatype ContainerAcc = ContainerAcc(
    default: Attr<DefaultPolicy>,
    primaryKey: Attr<string>,
    prefixKey: Attr<string>,
    modelType: Attr<Derive>,
    rules: RuleAcc
  )

  const FreshContainer: ContainerAcc :=
    ContainerAcc(NewAttr(DEFAULT), NewAttr(PRIMARY_KEY), NewAttr(PREFIX_KEY), NewAttr(MODEL_TYPE), FreshRules)

  /** The primary key's name when none is given. */
  const DefaultPrimaryKey: string := "id"

  const DefaultWordMessage: string := "#[redis(default)] can only be used on structs with named fields"
  const DefaultValueMessage: string := "#[redis(default = \"...\")] can only be used on structs with named fields"

  /** `Derive::from_lit_str`, reporting text it does not accept. */
  function ModelTypeFromStr(env: Env, s: string): (r: (Option<Derive>, seq<string>))
    ensures r.0.Some? <==> env.isModelType(s)
    ensures r.1 == if env.isModelType(s) then [] else [UnknownModelTypeMessage(s)]
  {
    if env.isModelType(s) then (Some(HashModel), []) else (None, [UnknownModelTypeMessage(s)])
  }

  /**
   * One item of a container attribute; `named` says whether the item is a
   * struct with named fields.
   */
  function ContainerStep(env: Env, named: bool, acc: ContainerAcc, m: MetaItem): (ContainerAcc, seq<string>) {
    if IsWordOf(m, DEFAULT) then
      if named then
        var (a, d) := Set(acc.default, UseDefault, []);
        (acc.(default := a), d)
      else (acc, [DefaultWordMessage])
    else if IsValueOf(m, DEFAULT) then
      match ToType(env.isExprPath, m.lit, [], DEFAULT)
      case (Err(_), d) => (acc, d)
      case (Ok(p), _) =>
        if named then
          var (a, d) := Set(acc.default, PathDefault(p), []);
          (acc.(default := a), d)
        else (acc, [DefaultValueMessage])
    else if IsValueOf(m, PREFIX_KEY) || IsValueOf(m, KEY) then
      var (a, d) := SetOpt(acc.prefixKey, ToString(m.lit), []);
      (acc.(prefixKey := a), d)
    else if IsValueOf(m, PRIMARY_KEY) then
      var (a, d) := SetOpt(acc.primaryKey, ToString(m.lit), []);
      (acc.(primaryKey := a), d)
    else if IsValueOf(m, MODEL_TYPE) then
      match ToLitStr(m.lit, [], MODEL_TYPE)
      case (Err(_), d) => (acc, d)
      case (Ok(s), _) =>
        var (v, d1) := ModelTypeFromStr(env, s);
        var (a, d2) := SetOpt(acc.modelType, v, d1);
        (acc.(modelType := a), d2)
    else if IsRenameAllItem(m) then
      var (r, d) := RenameAllStep(env, acc.rules, m);
      (acc.(rules := r), d)
    else if m.LitItem? then (acc, [UnexpectedLiteralMessage])
    else (acc, [UnknownContainerMessage(m.path)])
  }

  function ContainerStepFn(env: Env, named: bool): StepFn<ContainerAcc> {
    (acc, m) => ContainerStep(env, named, acc, m)
  }

  // ---------------------------------------------------------------------------
  // Reference readings of an item list
  // ---------------------------------------------------------------------------

  /** The key prefix one item offers: the text of a string `prefix_key` or `key`. */
  function PrefixOf(m: MetaItem): seq<string> {
    if (IsValueOf(m, PREFIX_KEY) || IsValueOf(m, KEY)) && m.lit.Str? then [m.lit.value] else []
  }

  /** The primary key name one item offers. */
  function PrimaryKeyOf(m: MetaItem): seq<string> {
    if IsValueOf(m, PRIMARY_KEY) && m.lit.Str? then [m.lit.value] else []
  }

  /** The default one item offers: only on a struct with named fields. */
  function ContainerDefaultOf(env: Env, named: bool, m: MetaItem): seq<DefaultPolicy> {
    if named then DefaultOf(env, m) else []
  }

  function PrefixValues(items: seq<MetaItem>): seq<string>
    decreases |items|
  {
    if |items| == 0 then [] else PrefixOf(items[0]) + PrefixValues(items[1..])
  }

  function PrimaryKeyValues(items: seq<MetaItem>): seq<string>
    decreases |items|
  {
    if |items| == 0 then [] else PrimaryKeyOf(items[0]) + PrimaryKeyValues(items[1..])
  }

  // ---------------------------------------------------------------------------
  // Properties
  // ---------------------------------------------------------------------------

  lemma ContainerStepPrefix(env: Env, named: bool, acc: ContainerAcc, m: MetaItem)
    ensures ContainerStep(env, named, acc, m).0.prefixKey.value == FirstWins(acc.prefixKey.value, PrefixOf(m))
  {
  }

  lemma ContainerStepPrimaryKey(env: Env, named: bool, acc: ContainerAcc, m: MetaItem)
    ensures ContainerStep(env, named, acc, m).0.primaryKey.value == FirstWins(acc.primaryKey.value, PrimaryKeyOf(m))
  {
  }

  lemma ContainerStepDefault(env: Env, named: bool, acc: ContainerAcc, m: MetaItem)
    ensures ContainerStep(env, named, acc, m).0.default.value
         == FirstWins(acc.default.value, ContainerDefaultOf(env, named, m))
  {
  }

  lemma ContainerStepRules(env: Env, named: bool, acc: ContainerAcc, m: MetaItem)
    ensures ContainerStep(env, named, acc, m).0.rules
         == if IsRenameAllItem(m) then RenameAllStep(env, acc.rules, m).0 else acc.rules
  {
  }

  /** Over a whole item list every slot holds the first value offered for it. */
  lemma {:induction false} ContainerFold(env: Env, named: bool, items: seq<MetaItem>, acc: ContainerAcc)
    ensures FoldState(items, acc, ContainerStepFn(env, named)).prefixKey.value
         == FirstWins(acc.prefixKey.value, PrefixValues(items))
    ensures FoldState(items, acc, ContainerStepFn(env, named)).primaryKey.value
         == FirstWins(acc.primaryKey.value, PrimaryKeyValues(items))
    ensures FoldState(items, acc, ContainerStepFn(env, named)).default.value
         == FirstWins(acc.default.value, if named then DefaultValues(env, items) else [])
    ensures FoldState(items, acc, ContainerStepFn(env, named)).rules == FoldRules(env, items, acc.rules)
    decreases |items|
  {
    if |items| > 0 {
      var m := items[0];
      var acc1 := ContainerStep(env, named, acc, m).0;
      assert FoldState(items, acc, ContainerStepFn(env, named))
          == FoldState(items[1..], acc1, ContainerStepFn(env, named));
      ContainerStepPrefix(env, named, acc, m);
      ContainerStepPrimaryKey(env, named, acc, m);
      ContainerStepDefault(env, named, acc, m);
      ContainerStepRules(env, named, acc, m);
      ContainerFold(env, named, items[1..], acc1);
      FirstWinsStep(acc.prefixKey.value, PrefixOf(m), PrefixValues(items[1..]));
      FirstWinsStep(acc.primaryKey.value, PrimaryKeyOf(m), PrimaryKeyValues(items[1..]));
      FirstWinsStep(acc.default.value, ContainerDefaultOf(env, named, m),
                    if named then DefaultValues(env, items[1..]) else []);
    } else {
      assert FoldState(items, acc, ContainerStepFn(env, named)) == acc;
    }
  }

  /** `default` on anything but a struct with named fields is reported and stores nothing. */
  lemma DefaultNeedsNamedFields(env: Env, acc: ContainerAcc, m: MetaItem)
    ensures IsWordOf(m, DEFAULT) ==> ContainerStep(env, false, acc, m) == (acc, [DefaultWordMessage])
    ensures IsValueOf(m, DEFAULT) && m.lit.Str? && env.isExprPath(m.lit.value)
        ==> ContainerStep(env, false, acc, m) == (acc, [DefaultValueMessage])
  {
  }

  /** A prefix that is not a string literal is dropped without any report. */
  lemma NonStringPrefixIgnored(env: Env, named: bool, acc: ContainerAcc, m: MetaItem)
    requires IsValueOf(m, PREFIX_KEY) || IsValueOf(m, KEY) || IsValueOf(m, PRIMARY_KEY)
    requires !m.lit.Str?
    ensures ContainerStep(env, named, acc, m) == (acc, [])
  {
  }

  /** `key` after `prefix_key` is a duplicate of `prefix_key`: the first prefix is kept. */
  lemma KeyDuplicatesPrefixKey(env: Env, named: bool, acc: ContainerAcc, m: MetaItem)
    requires acc.prefixKey.value.Some?
    requires IsValueOf(m, KEY) && m.lit.Str?
    ensures ContainerStep(env, named, acc, m) == (acc, [DuplicateMessage(acc.prefixKey.name)])
  {
    assert m.path == IdentPath("key");
    assert !IsValueOf(m, DEFAULT) && !IsWordOf(m, DEFAULT);
    var (a, d) := SetOpt(acc.prefixKey, ToString(m.lit), []);
    assert a == acc.prefixKey;
    assert d == [DuplicateMessage(acc.prefixKey.name)];
  }

  /** The attributes parsed from a container's `redis` items; `ident` names the container. */
  function ContainerAttrOfItems(env: Env, named: bool, ident: string, items: seq<MetaItem>): ContainerAttr {
    var acc := FoldState(items, FreshContainer, ContainerStepFn(env, named));
    ContainerAttr(
      if acc.prefixKey.value.Some? then acc.prefixKey.value.value else ident,
      if acc.primaryKey.value.Some? then acc.primaryKey.value.value else DefaultPrimaryKey,
      if acc.default.value.Some? then acc.default.value.value else NoDefault,
      Rules(acc.rules),
      if acc.modelType.value.Some? then acc.modelType.value.value else HashModel,
      false)
  }

  /**
   * `ContainerAttr::from_ast`: only the items of `redis` list attributes and
   * whether the item is a struct with named fields decide the result, and
   * diagnostics are only ever added.
   */
  function FromAst(env: Env, input: DeriveInput, ctx: Ctx): (r: (ContainerAttr, Ctx))
    ensures r.0 == ContainerAttrOfItems(env, IsNamedStruct(input.data), input.ident, RedisItems(input.attrs))
    ensures !r.0.hasFlatten
    ensures |r.1| >= |ctx| && r.1[..|ctx|] == ctx
  {
    var named := IsNamedStruct(input.data);
    var step := ContainerStepFn(env, named);
    var (acc, c) := WalkAttrs(input.attrs, FreshContainer, ctx, step);
    WalkAttrsState(input.attrs, FreshContainer, ctx, step);
    WalkAttrsExtends(input.attrs, FreshContainer, ctx, step);
    (ContainerAttr(
      if acc.prefixKey.value.Some? then acc.prefixKey.value.value else input.ident,
      if acc.primaryKey.value.Some? then acc.primaryKey.value.value else DefaultPrimaryKey,
      if acc.default.value.Some? then acc.default.value.value else NoDefault,
      Rules(acc.rules),
      if acc.modelType.value.Some? then acc.modelType.value.value else HashModel,
      false), c)
  }

  /**
   * What a container's items mean: the prefix is the first string
   * `prefix_key`/`key`, else the identifier; the primary key is the first
   * string `primary_key`, else `id`; a default is kept only on a struct with
   * named fields; each rule is the first known one offered for its side; no
   * field is flattened yet.
   */
  lemma ContainerAttrOfItemsMeaning(env: Env, named: bool, ident: string, items: seq<MetaItem>)
    ensures var r := ContainerAttrOfItems(env, named, ident, items);
      && r.prefixKey == (if |PrefixValues(items)| > 0 then PrefixValues(items)[0] else ident)
      && r.primaryKey == (if |PrimaryKeyValues(items)| > 0 then PrimaryKeyValues(items)[0] else DefaultPrimaryKey)
      && r.default == (if named && |DefaultValues(env, items)| > 0 then DefaultValues(env, items)[0] else NoDefault)
      && r.rules == RenameAllRules(FirstRule(SerRuleValues(env, items)), FirstRule(DeRuleValues(env, items)))
      && !r.hasFlatten
  {
    ContainerFold(env, named, items, FreshContainer);
    FoldRulesResolved(env, items);
  }

  /** `ContainerAttr::mark_has_flatten`. */
  function MarkHasFlatten(a: ContainerAttr): (r: ContainerAttr)
    ensures r.hasFlatten
    ensures r.(hasFlatten := a.hasFlatten) == a
  {
    a.(hasFlatten := true)
  }
}
