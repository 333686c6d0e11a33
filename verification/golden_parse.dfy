/**
 * The `Address` struct of the repository's search-model test, as written:
 * its `#[redis(...)]` items go through the attribute parsers, the container
 * builder designates `id` as the primary key, and the container that comes
 * out is the one whose schema the test checks.
 */
module GoldenParse {
  import opened Wrappers
  import opened Syntax
  import opened Symbols
  import opened Accumulators
  import opened Collaborators
  import opened AttrWalk
  import opened Names
  import opened NameItems
  import opened Containers
  import Strings
  import TypeExt
  import FieldAttrs
  import ContainerAttrs
  import Schema
  import Golden

  /** `#[redis(items)]`. */
  function RedisAttr(items: seq<MetaItem>): Attribute {
    Attribute(IdentPath("redis"), ListBody(items))
  }

  /** A bare keyword item. */
  function Flag(word: string): MetaItem {
    Word(IdentPath(word))
  }

  /** Bare keyword items, one per word, in order. */
  function Flags(words: seq<string>): (r: seq<MetaItem>)
    ensures |r| == |words|
    decreases |words|
  {
    if |words| == 0 then [] else [Flag(words[0])] + Flags(words[1..])
  }

  /** The keywords the fields of `Address` use: each sets one flag. */
  const FlagWords: seq<string> := ["index", "sortable", "full_text_search"]

  /** The flag a keyword of `FlagWords` sets, as the accumulator holds it. */
  predicate FlagSet(acc: FieldAttrs.FieldAcc, word: string) {
    if word == "index" then GetBool(acc.index)
    else if word == "sortable" then GetBool(acc.sortable)
    else GetBool(acc.fts)
  }

  /** Distinct keywords, each one of `FlagWords`. */
  predicate FlagList(words: seq<string>) {
    && (forall i :: 0 <= i < |words| ==> words[i] in FlagWords)
    && (forall i, j :: 0 <= i < j < |words| ==> words[i] != words[j])
  }

  /** `#[allow(dead_code)]`, which the test puts on the struct as well. */
  const AllowDeadCode: Attribute := Attribute(IdentPath("allow"), ListBody([Flag("dead_code")]))

  /** A named field of `Address` with one `#[redis(...)]` attribute of keywords. */
  function AddressDef(ident: string, words: seq<string>, ty: Type): FieldDef {
    FieldDef(Some(ident), [RedisAttr(Flags(words))], ty)
  }

  /** Fields of one `#[redis(...)]` attribute of keywords each: identifiers, keywords and types side by side. */
  function FlagDefs(idents: seq<string>, words: seq<seq<string>>, tys: seq<Type>): (r: seq<FieldDef>)
    requires |idents| == |words| == |tys|
    ensures |r| == |idents|
    ensures forall i :: 0 <= i < |idents| ==> r[i] == AddressDef(idents[i], words[i], tys[i])
  {
    seq(|idents|, i requires 0 <= i < |idents| => AddressDef(idents[i], words[i], tys[i]))
  }

  /** Plain named fields, numbered in order, each with the flags its keywords name and no primary key. */
  function PlainFields(idents: seq<string>, words: seq<seq<string>>, tys: seq<Type>): (r: seq<Field>)
    requires |idents| == |words| == |tys|
    ensures |r| == |idents|
    ensures forall i :: 0 <= i < |idents| ==>
      r[i] == Golden.Plain(idents[i], i, false, "index" in words[i], "sortable" in words[i], "full_text_search" in words[i], tys[i])
  {
    seq(|idents|, i requires 0 <= i < |idents| =>
      Golden.Plain(idents[i], i, false, "index" in words[i], "sortable" in words[i], "full_text_search" in words[i], tys[i]))
  }

  /** Plain identifiers, each with distinct keywords of `FlagWords`. */
  predicate FlagFields(idents: seq<string>, words: seq<seq<string>>, tys: seq<Type>) {
    && |idents| == |words| == |tys|
    && (forall i :: 0 <= i < |idents| ==> '#' !in idents[i])
    && (forall i :: 0 <= i < |words| ==> FlagList(words[i]))
  }

  const AddressIdents: seq<string> := ["id", "a", "b", "c", "d"]
  const AddressWords: seq<seq<string>> :=
    [["index"], ["index"], ["index", "full_text_search"], ["index", "sortable"], ["index"]]
  const AddressTypes: seq<Type> :=
    [Golden.StringType, Golden.StringType, Golden.StringType, TypeExt.Simple("u32", NoArgs), TypeExt.Simple("f32", NoArgs)]

  /**
   * The fields of `Address` as written in lib/tests/redissearch_model.rs:
   * `id`, `a` and `d` are `#[redis(index)]`, `b` adds `full_text_search`
   * and `c` adds `sortable`.
   */
  function AddressDefs(): seq<FieldDef> {
    FlagDefs(AddressIdents, AddressWords, AddressTypes)
  }

  /** The item `model_type = "HashModel"`. */
  const HashModelItem: MetaItem := NameValue(IdentPath("model_type"), Str("HashModel"))

  /** `#[allow(dead_code)] #[redis(model_type = "HashModel")] struct Address { ... }`. */
  function AddressInput(): DeriveInput {
    DeriveInput("Address", [AllowDeadCode, RedisAttr([HashModelItem])], StructData(Named(AddressDefs())))
  }

  // ---------------------------------------------------------------------------
  // The field attributes
  // ---------------------------------------------------------------------------

  /** A field named `src` with the given flags, as the parser leaves it: no renaming, no aliases, no default. */
  function FlagsAttr(src: string, index: bool, sortable: bool, fts: bool): FieldAttrs.FieldAttr {
    FieldAttrs.FieldAttr(Name(src, false, src, false, []), NoDefault, false, index, sortable, fts, false, false, false)
  }

  /** A bare keyword is the keyword `sym` exactly when its text is the symbol's. */
  lemma FlagIsWordOf(word: string, sym: Symbol)
    ensures IsWordOf(Flag(word), sym) <==> word == sym.text
  {
    if word == sym.text {
      assert GetIdent(IdentPath(word)) == Some(word);
    }
  }

  /** Some item of `Flags(words)` is the keyword `sym` exactly when its text is one of the words. */
  lemma {:induction false} FlagsHasWord(words: seq<string>, sym: Symbol)
    ensures HasWord(Flags(words), sym) <==> sym.text in words
    decreases |words|
  {
    if |words| > 0 {
      var items := Flags(words);
      assert items[0] == Flag(words[0]) && items[1..] == Flags(words[1..]);
      HasWordCons(items, sym);
      FlagIsWordOf(words[0], sym);
      FlagsHasWord(words[1..], sym);
      assert words == [words[0]] + words[1..];
    }
  }

  /** Keywords other than `default` name no serialize, deserialize or alias candidate and no default. */
  lemma {:induction false} FlagsNameNothing(env: Env, words: seq<string>)
    requires "default" !in words
    ensures SerValues(Flags(words)) == [] && DeValues(Flags(words)) == []
    ensures AliasValues(Flags(words)) == [] && DefaultValues(env, Flags(words)) == []
    decreases |words|
  {
    if |words| > 0 {
      var items := Flags(words);
      assert items[0] == Flag(words[0]) && items[1..] == Flags(words[1..]);
      FlagIsWordOf(words[0], DEFAULT);
      assert "default" !in words[1..] by {
        assert forall i :: 0 <= i < |words[1..]| ==> words[1..][i] == words[i + 1];
      }
      FlagsNameNothing(env, words[1..]);
    }
  }

  /** Items that name nothing and set no key or flatten flag parse to the flags they set. */
  lemma ItemsParsed(env: Env, src: string, items: seq<MetaItem>, index: bool, sortable: bool, fts: bool)
    requires SerValues(items) == [] && DeValues(items) == [] && AliasValues(items) == []
    requires DefaultValues(env, items) == []
    requires !HasWord(items, PRIMARY_KEY) && !HasWord(items, FLATTEN)
    requires HasWord(items, INDEX) == index && HasWord(items, SORTABLE) == sortable
    requires HasWord(items, FULL_TEXT_SEARCH) == fts
    ensures FieldAttrs.FieldAttrOfItems(env, src, items) == FlagsAttr(src, index, sortable, fts)
  {
    FieldAttrs.FieldAttrOfItemsMeaning(env, src, items);
    var r := FieldAttrs.FieldAttrOfItems(env, src, items);
    FieldAttrs.FieldFold(env, items, FieldAttrs.FreshField);
    FoldNamesAliases(env, items, FreshNames);
    assert r.name.aliasSet == SortedSet([]);
    assert r.name == Name(src, false, src, false, []);
    assert r.default == NoDefault;
    assert !r.primaryKey && !r.flatten && !r.skipSerializing && !r.skipDeserializing;
    assert r.index == index && r.sortable == sortable && r.fts == fts;
  }

  /** Keywords of `FlagWords` name nothing, set no key or flatten flag, and set exactly the flags they name. */
  lemma FlagsFacts(env: Env, words: seq<string>)
    requires forall i :: 0 <= i < |words| ==> words[i] in FlagWords
    ensures var items := Flags(words);
      && SerValues(items) == [] && DeValues(items) == [] && AliasValues(items) == []
      && DefaultValues(env, items) == []
      && !HasWord(items, PRIMARY_KEY) && !HasWord(items, FLATTEN)
      && HasWord(items, INDEX) == ("index" in words) && HasWord(items, SORTABLE) == ("sortable" in words)
      && HasWord(items, FULL_TEXT_SEARCH) == ("full_text_search" in words)
  {
    FlagsNameNothing(env, words);
    FlagsHasWord(words, PRIMARY_KEY);
    FlagsHasWord(words, INDEX);
    FlagsHasWord(words, SORTABLE);
    FlagsHasWord(words, FULL_TEXT_SEARCH);
    FlagsHasWord(words, FLATTEN);
  }

  /** The attributes parsed from keywords of `FlagWords` are the flags those keywords name. */
  lemma FlagsParsed(env: Env, src: string, words: seq<string>)
    requires forall i :: 0 <= i < |words| ==> words[i] in FlagWords
    ensures FieldAttrs.FieldAttrOfItems(env, src, Flags(words))
         == FlagsAttr(src, "index" in words, "sortable" in words, "full_text_search" in words)
  {
    FlagsFacts(env, words);
    ItemsParsed(env, src, Flags(words), "index" in words, "sortable" in words, "full_text_search" in words);
  }

  /** Setting a flag not yet set reports nothing, and leaves every other flag as it was. */
  lemma FlagStepQuiet(env: Env, acc: FieldAttrs.FieldAcc, word: string, other: string)
    requires word in FlagWords && !FlagSet(acc, word)
    requires other in FlagWords && other != word
    ensures FieldAttrs.FieldStep(env, acc, Flag(word)).1 == []
    ensures FlagSet(FieldAttrs.FieldStep(env, acc, Flag(word)).0, other) <==> FlagSet(acc, other)
  {
    FieldAttrs.FieldStepFlags(env, acc, Flag(word));
    FlagIsWordOf(word, INDEX);
    FlagIsWordOf(word, SORTABLE);
    FlagIsWordOf(word, FULL_TEXT_SEARCH);
    FlagIsWordOf(word, PRIMARY_KEY);
    FlagIsWordOf(word, RENAME);
    FlagIsWordOf(word, ALIAS);
    FlagIsWordOf(word, DEFAULT);
  }

  /** Walking distinct keywords not yet set reports nothing. */
  lemma {:induction false} FlagsWalkQuiet(env: Env, words: seq<string>, acc: FieldAttrs.FieldAcc, ctx: Ctx)
    requires FlagList(words)
    requires forall i :: 0 <= i < |words| ==> !FlagSet(acc, words[i])
    ensures WalkItems(Flags(words), acc, ctx, FieldAttrs.FieldStepFn(env)).1 == ctx
    decreases |words|
  {
    if |words| > 0 {
      var items := Flags(words);
      assert items[0] == Flag(words[0]) && items[1..] == Flags(words[1..]);
      var (acc1, d1) := FieldAttrs.FieldStep(env, acc, Flag(words[0]));
      forall i | 0 <= i < |words[1..]|
        ensures !FlagSet(acc1, words[1..][i])
      {
        FlagStepQuiet(env, acc, words[0], words[i + 1]);
      }
      if |words| == 1 {
        var other := if words[0] == "index" then "sortable" else "index";
        FlagStepQuiet(env, acc, words[0], other);
      }
      assert d1 == [];
      assert ctx + d1 == ctx;
      FlagsWalkQuiet(env, words[1..], acc1, ctx);
    }
  }

  /** Parsing a field with one attribute of distinct keywords reports nothing. */
  lemma FieldQuiet(env: Env, ident: string, index: nat, words: seq<string>, ty: Type, ctx: Ctx)
    requires FlagList(words)
    ensures var def := AddressDef(ident, words, ty);
      FieldAttrs.FromAst(env, def.ident, index, def.attrs, ctx).1 == ctx
  {
    var items := Flags(words);
    assert IsRedis(RedisAttr(items)) by {
      assert GetIdent(IdentPath("redis")) == Some("redis");
    }
    var step := FieldAttrs.FieldStepFn(env);
    var (s1, c1) := WalkItems(items, FieldAttrs.FreshField, ctx, step);
    assert WalkAttrs([RedisAttr(items)], FieldAttrs.FreshField, ctx, step) == WalkAttrs([], s1, c1, step);
    FlagsWalkQuiet(env, words, FieldAttrs.FreshField, ctx);
  }

  /** A field with one attribute of keywords, as parsed: its source name and the flags the keywords name. */
  lemma FieldParsed(env: Env, ident: string, index: nat, words: seq<string>, ty: Type)
    requires '#' !in ident
    requires forall i :: 0 <= i < |words| ==> words[i] in FlagWords
    ensures FieldAttrOf(env, AddressDef(ident, words, ty), index)
         == FlagsAttr(ident, "index" in words, "sortable" in words, "full_text_search" in words)
  {
    var items := Flags(words);
    assert IsRedis(RedisAttr(items)) by {
      assert GetIdent(IdentPath("redis")) == Some("redis");
    }
    assert RedisItems([RedisAttr(items)]) == items + RedisItems([]);
    assert items + [] == items;
    if |ident| >= 2 {
      assert ident[1] in ident;
    }
    assert !Strings.StartsWith(ident, "r#");
    assert FieldAttrs.FieldSourceName(Some(ident), index) == ident;
    FlagsParsed(env, ident, words);
  }

  /** Fields whose parsing reports nothing leave the diagnostics as they were. */
  lemma {:induction false} FieldDiagnosticsQuiet(env: Env, defs: seq<FieldDef>, first: nat, ctx: Ctx)
    requires forall k :: 0 <= k < |defs| ==> FieldAttrs.FromAst(env, defs[k].ident, first + k, defs[k].attrs, ctx).1 == ctx
    ensures FieldDiagnostics(env, defs, first, ctx) == ctx
    decreases |defs|
  {
    if |defs| > 0 {
      assert forall k :: 0 <= k < |defs| - 1 ==> defs[1..][k] == defs[k + 1];
      FieldDiagnosticsQuiet(env, defs[1..], first + 1, ctx);
    }
  }

  /** Fields of one attribute of keywords each parse to plain fields with the flags their keywords name. */
  lemma FlagDefsParsed(env: Env, idents: seq<string>, words: seq<seq<string>>, tys: seq<Type>)
    requires FlagFields(idents, words, tys)
    ensures ParsedFields(env, FlagDefs(idents, words, tys)) == PlainFields(idents, words, tys)
  {
    var defs := FlagDefs(idents, words, tys);
    forall i | 0 <= i < |idents|
      ensures ParsedFields(env, defs)[i] == PlainFields(idents, words, tys)[i]
    {
      FieldParsed(env, idents[i], i, words[i], tys[i]);
    }
  }

  /** Parsing fields of one attribute of distinct keywords each reports nothing. */
  lemma FlagDefsQuiet(env: Env, idents: seq<string>, words: seq<seq<string>>, tys: seq<Type>, ctx: Ctx)
    requires FlagFields(idents, words, tys)
    ensures FieldDiagnostics(env, FlagDefs(idents, words, tys), 0, ctx) == ctx
  {
    var defs := FlagDefs(idents, words, tys);
    forall k | 0 <= k < |defs|
      ensures FieldAttrs.FromAst(env, defs[k].ident, 0 + k, defs[k].attrs, ctx).1 == ctx
    {
      FieldQuiet(env, idents[k], k, words[k], tys[k], ctx);
    }
    FieldDiagnosticsQuiet(env, defs, 0, ctx);
  }

  /** `fields_from_ast` on fields whose parsing reports nothing and which end up with a primary key reports nothing. */
  lemma QuietFieldsFromAst(env: Env, defs: seq<FieldDef>, ctx: Ctx)
    requires FieldDiagnostics(env, defs, 0, ctx) == ctx
    requires HasPrimaryKey(FieldsOf(env, defs))
    ensures FieldsFromAst(env, defs, ctx) == (FieldsOf(env, defs), ctx)
  {
    assert ctx + [] == ctx;
  }

  // ---------------------------------------------------------------------------
  // The fields and the container
  // ---------------------------------------------------------------------------

  /** The identifiers and keywords of `Address` are plain and distinct. */
  lemma AddressFlagFields()
    ensures FlagFields(AddressIdents, AddressWords, AddressTypes)
  {
  }

  /** The plain fields the keywords of `Address` name are those of the golden schema test, before a key is designated. */
  lemma AddressPlain()
    ensures PlainFields(AddressIdents, AddressWords, AddressTypes) == Golden.AddressFields(false)
  {
    var ps := PlainFields(AddressIdents, AddressWords, AddressTypes);
    var want := Golden.AddressFields(false);
    assert ps[0] == want[0] && ps[1] == want[1] && ps[2] == want[2] && ps[3] == want[3] && ps[4] == want[4];
  }

  /** With no annotated key, the first field, serialized as `id`, becomes the primary key. */
  lemma AddressKey()
    ensures DesignatePrimaryKey(Golden.AddressFields(false)) == Golden.AddressFields(true)
    ensures HasPrimaryKey(Golden.AddressFields(true))
  {
    var parsed := Golden.AddressFields(false);
    assert !HasPrimaryKey(parsed) by {
      forall i | 0 <= i < |parsed| ensures !parsed[i].attrs.primaryKey { }
    }
    assert NamedId(parsed[0]);
    assert FindId(parsed) == Some(0);
    assert MarkPrimaryKey(parsed, 0) == Golden.AddressFields(true);
    assert Golden.AddressFields(true)[0].attrs.primaryKey;
  }

  /** The fields of `Address` as parsed, before a primary key is designated. */
  lemma AddressParsed(env: Env)
    ensures ParsedFields(env, AddressDefs()) == Golden.AddressFields(false)
  {
    AddressFlagFields();
    FlagDefsParsed(env, AddressIdents, AddressWords, AddressTypes);
    AddressPlain();
  }

  /** `fields_from_ast` keeps the parsed fields of `Address` and designates `id` as the primary key. */
  lemma AddressKeyDesignated(env: Env)
    ensures FieldsOf(env, AddressDefs()) == Golden.AddressFields(true)
    ensures HasPrimaryKey(Golden.AddressFields(true))
  {
    AddressParsed(env);
    AddressKey();
  }

  /** Parsing the fields of `Address` reports nothing. */
  lemma AddressFieldsQuiet(env: Env, ctx: Ctx)
    ensures FieldDiagnostics(env, AddressDefs(), 0, ctx) == ctx
  {
    AddressFlagFields();
    FlagDefsQuiet(env, AddressIdents, AddressWords, AddressTypes, ctx);
  }

  /** `fields_from_ast` on `Address`: `id` becomes the primary key and nothing is reported. */
  lemma AddressFieldsBuilt(env: Env, ctx: Ctx)
    ensures FieldsFromAst(env, AddressDefs(), ctx) == (Golden.AddressFields(true), ctx)
  {
    AddressKeyDesignated(env);
    AddressFieldsQuiet(env, ctx);
    QuietFieldsFromAst(env, AddressDefs(), ctx);
  }

  /** `model_type = "HashModel"` is accepted and changes no slot other than the model type. */
  lemma HashModelStep(env: Env, acc: ContainerAttrs.ContainerAcc)
    requires env.isModelType("HashModel")
    requires acc.modelType.value.None?
    ensures var (acc1, d) := ContainerAttrs.ContainerStep(env, true, acc, HashModelItem);
      && d == [] && acc1 == acc.(modelType := acc1.modelType) && acc1.modelType.value == Some(HashModel)
  {
    assert GetIdent(HashModelItem.path) == Some("model_type");
  }

  /** The `redis` items of `Address` are `model_type = "HashModel"` alone; `allow` is passed over. */
  lemma AddressItems()
    ensures RedisItems(AddressInput().attrs) == [HashModelItem]
  {
    assert !IsRedis(AllowDeadCode) by {
      assert GetIdent(IdentPath("allow")) == Some("allow");
    }
    assert IsRedis(RedisAttr([HashModelItem])) by {
      assert GetIdent(IdentPath("redis")) == Some("redis");
    }
    assert RedisItems(AddressInput().attrs) == RedisItems([RedisAttr([HashModelItem])]);
    assert RedisItems([RedisAttr([HashModelItem])]) == [HashModelItem] + RedisItems([]);
  }

  /** The container attributes of `Address`: prefix `Address`, key `id`, no default, no rules, reporting nothing. */
  lemma AddressContainerAttrs(env: Env, ctx: Ctx)
    requires env.isModelType("HashModel")
    ensures ContainerAttrs.FromAst(env, AddressInput(), ctx) == (Golden.Struct("Address", []).attrs, ctx)
  {
    var input := AddressInput();
    var step := ContainerAttrs.ContainerStepFn(env, true);
    var acc := ContainerAttrs.FreshContainer;
    AddressItems();
    HashModelStep(env, acc);
    var (acc1, d) := ContainerAttrs.ContainerStep(env, true, acc, HashModelItem);
    assert ctx + d == ctx;
    assert IsRedis(RedisAttr([HashModelItem])) by {
      assert GetIdent(IdentPath("redis")) == Some("redis");
    }
    assert !IsRedis(AllowDeadCode) by {
      assert GetIdent(IdentPath("allow")) == Some("allow");
    }
    assert WalkItems([HashModelItem], acc, ctx, step) == (acc1, ctx);
    assert WalkAttrs(input.attrs, acc, ctx, step) == (acc1, ctx);
  }

  /** Without rules, renaming leaves every field as it is. */
  lemma RenameWithoutRulesKeeps(env: Env, fields: seq<Field>)
    ensures RenameFields(env, fields, NoRules) == fields
  {
    forall i | 0 <= i < |fields|
      ensures RenameFields(env, fields, NoRules)[i] == fields[i]
    {
      FieldAttrs.RenameWithoutRules(env, fields[i].attrs);
    }
  }

  /** No field of `Address` is flattened. */
  lemma AddressNoFlatten()
    ensures !AnyFlatten(StructFields(StructStyle, Golden.AddressFields(true)))
  {
    var fields := Golden.AddressFields(true);
    forall i | 0 <= i < |fields| ensures !fields[i].attrs.flatten { }
  }

  /** The data of `Address`: a struct with named fields, which no rule renames. */
  lemma AddressData(env: Env)
    ensures DataOf(env, AddressInput().data, NoRules) == StructFields(StructStyle, Golden.AddressFields(true))
  {
    AddressKeyDesignated(env);
    RenameWithoutRulesKeeps(env, Golden.AddressFields(true));
  }

  /** Building the fields of `Address` reports nothing. */
  lemma AddressDataQuiet(env: Env)
    ensures DataDiagnostics(env, AddressInput().data, []) == []
  {
    AddressFieldsBuilt(env, []);
  }

  /** `Container::new` builds `Address` into the container of the golden schema test, reporting nothing. */
  lemma AddressBuilt(env: Env)
    requires env.isModelType("HashModel")
    ensures New(env, AddressInput(), []) == (Some(Golden.Struct("Address", Golden.AddressFields(true))), [])
  {
    AddressContainerAttrs(env, []);
    AddressData(env);
    AddressDataQuiet(env);
    AddressNoFlatten();
  }

  /**
   * The repository's `Address` test end to end: the container built from the
   * attributes as written has the search schema the test expects.
   */
  lemma AddressSchemaFromSource(env: Env)
    requires env.isModelType("HashModel")
    ensures var (c, d) := New(env, AddressInput(), []);
      && c.Some? && d == []
      && Schema.SearchSchema(c.value, d).0 == Generated(Golden.Concat(Golden.AddressSchemaPieces()))
  {
    AddressBuilt(env);
    Golden.AddressSearchSchema(true);
  }
}
