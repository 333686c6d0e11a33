/**
 * The items fields and variants parse identically: `rename = "..."`,
 * `rename(serialize = ..., deserialize = ...)`, `alias = "..."`, `default`
 * and `default = "..."`. Their accumulators are kept together in `NameAcc`.
 */
module NameItems {
  import opened Wrappers
  import opened Syntax
  import opened Symbols
  import opened Accumulators
  import opened Lits
  import opened MetaLists
  import opened Collaborators

  /** `ast::Default`: how a missing field is filled in when deserializing. */
  datatype DefaultPolicy = NoDefault | UseDefault | PathDefault(path: string)

  datatype NameAcc = NameAcc(
    ser: Attr<string>,
    de: Attr<string>,
    aliases: VecAttr<string>,
    default: Attr<DefaultPolicy>
  )

  /** The accumulators as a parser creates them; all three name accumulators are labelled `rename`. */
  const FreshNames: NameAcc := NameAcc(NewAttr(RENAME), NewAttr(RENAME), NewVec(RENAME), NewAttr(DEFAULT))

  predicate IsRenameValue(m: MetaItem) { m.NameValue? && PathIs(m.path, RENAME) }
  predicate IsRenameList(m: MetaItem) { m.List? && PathIs(m.path, RENAME) }
  predicate IsAliasValue(m: MetaItem) { m.NameValue? && PathIs(m.path, ALIAS) }
  predicate IsDefaultWord(m: MetaItem) { m.Word? && PathIs(m.path, DEFAULT) }
  predicate IsDefaultValue(m: MetaItem) { m.NameValue? && PathIs(m.path, DEFAULT) }

  predicate IsNameItem(m: MetaItem) {
    IsRenameValue(m) || IsRenameList(m) || IsAliasValue(m) || IsDefaultWord(m) || IsDefaultValue(m)
  }

  /** Sets the deserialize name if unset and records the alias, for each value in turn. */
  function AddDeserializeNames(acc: NameAcc, des: seq<string>): (r: NameAcc)
    ensures r.ser == acc.ser && r.default == acc.default
    ensures r.aliases == VecAttr(acc.aliases.name, acc.aliases.values + des)
    ensures r.de.name == acc.de.name
    ensures r.de.value == if acc.de.value.Some? || |des| == 0 then acc.de.value else Some(des[0])
    decreases |des|
  {
    if |des| == 0 then acc
    else
      var acc1 := acc.(de := SetIfNone(acc.de, des[0]), aliases := Insert(acc.aliases, des[0]));
      assert acc.aliases.values + [des[0]] + des[1..] == acc.aliases.values + des;
      AddDeserializeNames(acc1, des[1..])
  }

  /** One shared item: the updated accumulators and what the item reports. */
  function NameStep(env: Env, acc: NameAcc, m: MetaItem): (NameAcc, seq<string>)
    requires IsNameItem(m)
  {
    if IsRenameValue(m) then
      match ToLitStr(m.lit, [], RENAME)
      case (Err(_), d) => (acc, d)
      case (Ok(s), _) =>
        var (ser, d) := Set(acc.ser, s, []);
        (acc.(ser := ser, de := SetIfNone(acc.de, s), aliases := Insert(acc.aliases, s)), d)
    else if IsRenameList(m) then
      match GetMultipleRenames([], m.nested)
      case (Err(_), d) => (acc, d)
      case (Ok((sv, des)), d) =>
        var (ser, d2) := SetOpt(acc.ser, sv, d);
        (AddDeserializeNames(acc.(ser := ser), des), d2)
    else if IsAliasValue(m) then
      match ToLitStr(m.lit, [], ALIAS)
      case (Err(_), d) => (acc, d)
      case (Ok(s), _) => (acc.(aliases := Insert(acc.aliases, s)), [])
    else if IsDefaultWord(m) then
      var (dflt, d) := Set(acc.default, UseDefault, []);
      (acc.(default := dflt), d)
    else
      match ToType(env.isExprPath, m.lit, [], DEFAULT)
      case (Err(_), d) => (acc, d)
      case (Ok(p), _) =>
        var (dflt, d) := Set(acc.default, PathDefault(p), []);
        (acc.(default := dflt), d)
  }

  /** The accumulators after the shared items among `items`; other items are passed over. */
  function FoldNames(env: Env, items: seq<MetaItem>, acc: NameAcc): NameAcc
    decreases |items|
  {
    if |items| == 0 then acc
    else FoldNames(env, items[1..], if IsNameItem(items[0]) then NameStep(env, acc, items[0]).0 else acc)
  }

  // ---------------------------------------------------------------------------
  // Reference readings of an item list
  // ---------------------------------------------------------------------------

  /** The grouped `rename(...)` is accepted: only serialize/deserialize items, at most one serialize. */
  predicate AcceptedRenameList(m: MetaItem)
    requires m.List?
  {
    WellFormed(m.nested) && |SideValues(m.nested, SERIALIZE)| <= 1
  }

  /** The serialize name one item offers. */
  function SerOf(m: MetaItem): seq<string> {
    if IsRenameValue(m) && m.lit.Str? then [m.lit.value]
    else if IsRenameList(m) && AcceptedRenameList(m) then SideValues(m.nested, SERIALIZE)
    else []
  }

  /** The deserialize names one item offers. */
  function DeOf(m: MetaItem): seq<string> {
    if IsRenameValue(m) && m.lit.Str? then [m.lit.value]
    else if IsRenameList(m) && AcceptedRenameList(m) then SideValues(m.nested, DESERIALIZE)
    else []
  }

  /** The aliases one item records: its deserialize names, or the value of `alias = "..."`. */
  function AliasOf(m: MetaItem): seq<string> {
    if IsAliasValue(m) && m.lit.Str? then [m.lit.value] else DeOf(m)
  }

  /** The default one item offers. */
  function DefaultOf(env: Env, m: MetaItem): seq<DefaultPolicy> {
    if IsDefaultWord(m) then [UseDefault]
    else if IsDefaultValue(m) && m.lit.Str? && env.isExprPath(m.lit.value) then [PathDefault(m.lit.value)]
    else []
  }

  /** Candidate serialize names, in order. */
  function SerValues(items: seq<MetaItem>): seq<string>
    decreases |items|
  {
    if |items| == 0 then [] else SerOf(items[0]) + SerValues(items[1..])
  }

  /** Candidate deserialize names, in order. */
  function DeValues(items: seq<MetaItem>): seq<string>
    decreases |items|
  {
    if |items| == 0 then [] else DeOf(items[0]) + DeValues(items[1..])
  }

  /** Every alias recorded: each deserialize candidate and each `alias = "..."`, in order. */
  function AliasValues(items: seq<MetaItem>): seq<string>
    decreases |items|
  {
    if |items| == 0 then [] else AliasOf(items[0]) + AliasValues(items[1..])
  }

  /** Candidate defaults, in order: `default`, and `default = "p"` when `p` parses as a path. */
  function DefaultValues(env: Env, items: seq<MetaItem>): seq<DefaultPolicy>
    decreases |items|
  {
    if |items| == 0 then [] else DefaultOf(env, items[0]) + DefaultValues(env, items[1..])
  }

  lemma NameStepNames(env: Env, acc: NameAcc, m: MetaItem)
    requires IsNameItem(m)
    ensures NameStep(env, acc, m).0.ser.value == FirstWins(acc.ser.value, SerOf(m))
    ensures NameStep(env, acc, m).0.de.value == FirstWins(acc.de.value, DeOf(m))
    ensures NameStep(env, acc, m).0.aliases.values == acc.aliases.values + AliasOf(m)
  {
    if IsRenameList(m) {
      var (r, d) := GetMultipleRenames([], m.nested);
      if r.Ok? {
        assert r.value.0 == FirstOf(SideValues(m.nested, SERIALIZE));
      }
    }
  }

  lemma NameStepDefault(env: Env, acc: NameAcc, m: MetaItem)
    requires IsNameItem(m)
    ensures NameStep(env, acc, m).0.default.value == FirstWins(acc.default.value, DefaultOf(env, m))
  {
  }

  lemma NonNameItemOffersNothing(env: Env, m: MetaItem)
    requires !IsNameItem(m)
    ensures SerOf(m) == [] && DeOf(m) == [] && AliasOf(m) == [] && DefaultOf(env, m) == []
  {
  }

  /**
   * The shared items resolve first-wins: the serialize name, deserialize
   * name and default are the first candidates, unless already set.
   */
  lemma {:induction false} FoldNamesFirstWins(env: Env, items: seq<MetaItem>, acc: NameAcc)
    ensures FoldNames(env, items, acc).ser.value == FirstWins(acc.ser.value, SerValues(items))
    ensures FoldNames(env, items, acc).de.value == FirstWins(acc.de.value, DeValues(items))
    ensures FoldNames(env, items, acc).default.value == FirstWins(acc.default.value, DefaultValues(env, items))
    decreases |items|
  {
    if |items| > 0 {
      var m := items[0];
      var acc1 := if IsNameItem(m) then NameStep(env, acc, m).0 else acc;
      assert FoldNames(env, items, acc) == FoldNames(env, items[1..], acc1);
      if IsNameItem(m) {
        NameStepNames(env, acc, m);
        NameStepDefault(env, acc, m);
      } else {
        NonNameItemOffersNothing(env, m);
      }
      FoldNamesFirstWins(env, items[1..], acc1);
      FirstWinsStep(acc.ser.value, SerOf(m), SerValues(items[1..]));
      FirstWinsStep(acc.de.value, DeOf(m), DeValues(items[1..]));
      FirstWinsStep(acc.default.value, DefaultOf(env, m), DefaultValues(env, items[1..]));
    }
  }

  /** Every alias candidate is recorded, in order, repeats kept. */
  lemma {:induction false} FoldNamesAliases(env: Env, items: seq<MetaItem>, acc: NameAcc)
    ensures FoldNames(env, items, acc).aliases.values == acc.aliases.values + AliasValues(items)
    decreases |items|
  {
    if |items| > 0 {
      var m := items[0];
      var acc1 := if IsNameItem(m) then NameStep(env, acc, m).0 else acc;
      assert FoldNames(env, items, acc) == FoldNames(env, items[1..], acc1);
      assert acc1.aliases.values == acc.aliases.values + AliasOf(m) by {
        if IsNameItem(m) { NameStepNames(env, acc, m); } else { NonNameItemOffersNothing(env, m); }
      }
      FoldNamesAliases(env, items[1..], acc1);
      assert AliasValues(items) == AliasOf(m) + AliasValues(items[1..]);
      ConcatAssoc(acc.aliases.values, AliasOf(m), AliasValues(items[1..]));
    } else {
      assert acc.aliases.values + [] == acc.aliases.values;
    }
  }
}
