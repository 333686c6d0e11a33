/**
 * `VariantAttr`: what the `#[redis(...)]` attributes of one enum variant say
 * about it.
 */
module VariantAttrs {
  import opened Wrappers
  import opened Strings
  import opened Syntax
  import opened Symbols
  import opened Accumulators
  import opened Collaborators
  import opened Names
  import opened NameItems
  import opened RenameAllItems
  import opened AttrWalk

  datatype VariantAttr = VariantAttr(
    name: Name,
    skipDeserializing: bool,
    skipSerializing: bool,
    rules: RenameAllRules
  )

  /** The `default` accumulator inside `names` is filled and checked but never read back. */
  datatype VariantAcc = VariantAcc(
    names: NameAcc,
    rules: RuleAcc,
    skipDeserializing: BoolAttr,
    skipSerializing: BoolAttr
  )

  const FreshVariant: VariantAcc :=
    VariantAcc(FreshNames, FreshRules, NewBool(SKIP_DESERIALIZING), NewBool(SKIP_SERIALIZING))

  /**
   * One item of a variant attribute. `skip` sets both flags; because it is
   * spelled `skip_serializing`, the separate `skip_serializing` arm is never
   * reached.
   */
  function VariantStep(env: Env, acc: VariantAcc, m: MetaItem): (VariantAcc, seq<string>) {
    if IsNameItem(m) then
      var (n, d) := NameStep(env, acc.names, m);
      (acc.(names := n), d)
    else if IsWordOf(m, SKIP) then
      var (s, d1) := SetTrue(acc.skipSerializing, []);
      var (de, d2) := SetTrue(acc.skipDeserializing, d1);
      (acc.(skipSerializing := s, skipDeserializing := de), d2)
    else if IsWordOf(m, SKIP_DESERIALIZING) then
      var (de, d) := SetTrue(acc.skipDeserializing, []);
      (acc.(skipDeserializing := de), d)
    else if IsWordOf(m, SKIP_SERIALIZING) then
      var (s, d) := SetTrue(acc.skipSerializing, []);
      (acc.(skipSerializing := s), d)
    else if IsRenameAllItem(m) then
      var (r, d) := RenameAllStep(env, acc.rules, m);
      (acc.(rules := r), d)
    else if m.LitItem? then (acc, [UnexpectedLiteralMessage])
    else (acc, [UnknownFieldMessage(m.path)])
  }

  function VariantStepFn(env: Env): StepFn<VariantAcc> {
    (acc, m) => VariantStep(env, acc, m)
  }

  lemma VariantStepParts(env: Env, acc: VariantAcc, m: MetaItem)
    ensures VariantStep(env, acc, m).0.names == if IsNameItem(m) then NameStep(env, acc.names, m).0 else acc.names
    ensures VariantStep(env, acc, m).0.rules == if IsRenameAllItem(m) then RenameAllStep(env, acc.rules, m).0 else acc.rules
  {
  }

  lemma VariantStepFlags(env: Env, acc: VariantAcc, m: MetaItem)
    ensures GetBool(VariantStep(env, acc, m).0.skipSerializing)
        <==> GetBool(acc.skipSerializing) || IsWordOf(m, SKIP)
    ensures GetBool(VariantStep(env, acc, m).0.skipDeserializing)
        <==> GetBool(acc.skipDeserializing) || IsWordOf(m, SKIP) || IsWordOf(m, SKIP_DESERIALIZING)
  {
    if IsNameItem(m) {
      assert !m.Word? || PathIs(m.path, DEFAULT);
    }
  }

  /** After the items: the shared accumulators hold what their folds compute, and each skip flag is set iff a word sets it. */
  lemma {:induction false} VariantFold(env: Env, items: seq<MetaItem>, acc: VariantAcc)
    ensures FoldState(items, acc, VariantStepFn(env)).names == FoldNames(env, items, acc.names)
    ensures FoldState(items, acc, VariantStepFn(env)).rules == FoldRules(env, items, acc.rules)
    ensures GetBool(FoldState(items, acc, VariantStepFn(env)).skipSerializing)
        <==> GetBool(acc.skipSerializing) || HasWord(items, SKIP)
    ensures GetBool(FoldState(items, acc, VariantStepFn(env)).skipDeserializing)
        <==> GetBool(acc.skipDeserializing) || HasWord(items, SKIP) || HasWord(items, SKIP_DESERIALIZING)
    decreases |items|
  {
    if |items| > 0 {
      var m := items[0];
      var acc1 := VariantStep(env, acc, m).0;
      assert FoldState(items, acc, VariantStepFn(env)) == FoldState(items[1..], acc1, VariantStepFn(env));
      VariantStepParts(env, acc, m);
      VariantStepFlags(env, acc, m);
      VariantFold(env, items[1..], acc1);
      HasWordCons(items, SKIP);
      HasWordCons(items, SKIP_DESERIALIZING);
    }
  }

  /**
   * `skip` followed by `skip_deserializing` sets the deserialize flag twice,
   * which is reported as a duplicate `skip_deserializing`.
   */
  lemma SkipThenSkipDeserializing(env: Env, m1: MetaItem, m2: MetaItem, ctx: Ctx)
    requires IsWordOf(m1, SKIP) && IsWordOf(m2, SKIP_DESERIALIZING)
    ensures WalkItems([m1, m2], FreshVariant, ctx, VariantStepFn(env)).1
         == ctx + [DuplicateMessage(SKIP_DESERIALIZING)]
  {
    var (a1, d1) := VariantStep(env, FreshVariant, m1);
    assert d1 == [];
    assert GetBool(a1.skipDeserializing);
    var (a2, d2) := VariantStep(env, a1, m2);
    assert d2 == [DuplicateMessage(SKIP_DESERIALIZING)];
    var f := VariantStepFn(env);
    assert [m1, m2][1..] == [m2];
    assert WalkItems([m1, m2], FreshVariant, ctx, f) == WalkItems([m2], a1, ctx + d1, f);
    assert WalkItems([m2], a1, ctx + d1, f) == WalkItems([], a2, ctx + d1 + d2, f);
    assert ctx + d1 == ctx;
  }

  /** The attributes parsed from the items of a variant's `redis` attributes. */
  function VariantAttrOfItems(env: Env, src: string, items: seq<MetaItem>): VariantAttr {
    var acc := FoldState(items, FreshVariant, VariantStepFn(env));
    VariantAttr(
      FromAttrs(src, acc.names.ser, acc.names.de, Some(acc.names.aliases)),
      GetBool(acc.skipDeserializing),
      GetBool(acc.skipSerializing),
      Rules(acc.rules))
  }

  /**
   * `VariantAttr::from_ast`: the variant is known by its identifier without
   * `r#`; only the items of `redis` list attributes decide the result, and
   * diagnostics are only ever added.
   */
  function FromAst(env: Env, ident: string, attrs: seq<Attribute>, ctx: Ctx): (r: (VariantAttr, Ctx))
    ensures r.0 == VariantAttrOfItems(env, Unraw(ident), RedisItems(attrs))
    ensures |r.1| >= |ctx| && r.1[..|ctx|] == ctx
  {
    var (acc, c) := WalkAttrs(attrs, FreshVariant, ctx, VariantStepFn(env));
    WalkAttrsState(attrs, FreshVariant, ctx, VariantStepFn(env));
    WalkAttrsExtends(attrs, FreshVariant, ctx, VariantStepFn(env));
    var names := acc.names;
    (VariantAttr(
      FromAttrs(Unraw(ident), names.ser, names.de, Some(names.aliases)),
      GetBool(acc.skipDeserializing),
      GetBool(acc.skipSerializing),
      Rules(acc.rules)), c)
  }

  /**
   * What the items of a variant's attributes mean: `skip` sets both flags
   * and `skip_deserializing` the deserialize flag; the names are the first
   * candidates offered, else the source name; the aliases are every alias
   * candidate; each rename rule is the first known rule offered for its side.
   */
  lemma VariantAttrOfItemsMeaning(env: Env, src: string, items: seq<MetaItem>)
    ensures var r := VariantAttrOfItems(env, src, items);
      && (r.skipSerializing <==> HasWord(items, SKIP))
      && (r.skipDeserializing <==> HasWord(items, SKIP) || HasWord(items, SKIP_DESERIALIZING))
      && (r.name.serializeRenamed <==> |SerValues(items)| > 0)
      && r.name.serialize == (if |SerValues(items)| > 0 then SerValues(items)[0] else src)
      && (r.name.deserializeRenamed <==> |DeValues(items)| > 0)
      && r.name.deserialize == (if |DeValues(items)| > 0 then DeValues(items)[0] else src)
      && (forall y :: y in r.name.aliasSet <==> y in AliasValues(items))
      && r.rules == RenameAllRules(FirstRule(SerRuleValues(env, items)), FirstRule(DeRuleValues(env, items)))
  {
    VariantFold(env, items, FreshVariant);
    FoldNamesFirstWins(env, items, FreshNames);
    FoldNamesAliases(env, items, FreshNames);
    FoldRulesResolved(env, items);
  }

  /**
   * `VariantAttr::rename_by_rules`: each side not explicitly renamed is passed
   * through its rule in variant style; everything else stays as it is.
   */
  function RenameByRules(env: Env, a: VariantAttr, rules: RenameAllRules): (r: VariantAttr)
    ensures r.name.serialize == if a.name.serializeRenamed then a.name.serialize
                                 else ApplyToVariant(env, rules.serialize, a.name.serialize)
    ensures r.name.deserialize == if a.name.deserializeRenamed then a.name.deserialize
                                   else ApplyToVariant(env, rules.deserialize, a.name.deserialize)
    ensures r.name.aliasSet == a.name.aliasSet
    ensures r.name.serializeRenamed == a.name.serializeRenamed && r.name.deserializeRenamed == a.name.deserializeRenamed
    ensures r.(name := a.name) == a
  {
    var n := a.name;
    var n1 := if n.serializeRenamed then n else n.(serialize := ApplyToVariant(env, rules.serialize, n.serialize));
    var n2 := if n1.deserializeRenamed then n1 else n1.(deserialize := ApplyToVariant(env, rules.deserialize, n1.deserialize));
    a.(name := n2)
  }

  /** Without rules, renaming changes nothing. */
  lemma RenameWithoutRules(env: Env, a: VariantAttr)
    ensures RenameByRules(env, a, NoRules) == a
  {
  }
}
