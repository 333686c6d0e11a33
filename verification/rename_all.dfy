/**
 * `rename_all = "rule"` and `rename_all(serialize = "...", deserialize = "...")`,
 * which variants and containers parse identically into a pair of rule
 * accumulators, both labelled `rename_all`.
 */
module RenameAllItems {
  import opened Wrappers
  import opened Syntax
  import opened Symbols
  import opened Accumulators
  import opened Lits
  import opened MetaLists
  import opened Collaborators

  datatype RuleAcc = RuleAcc(ser: Attr<RenameRule>, de: Attr<RenameRule>)

  const FreshRules: RuleAcc := RuleAcc(NewAttr(RENAME_ALL), NewAttr(RENAME_ALL))

  predicate IsRenameAllValue(m: MetaItem) { m.NameValue? && PathIs(m.path, RENAME_ALL) }
  predicate IsRenameAllList(m: MetaItem) { m.List? && PathIs(m.path, RENAME_ALL) }

  predicate IsRenameAllItem(m: MetaItem) {
    IsRenameAllValue(m) || IsRenameAllList(m)
  }

  /** One side of the grouped form: a known rule is stored, an unknown one reported. */
  function SetRule(env: Env, a: Attr<RenameRule>, v: Option<string>, ctx: Ctx): (Attr<RenameRule>, Ctx) {
    match v
    case None => (a, ctx)
    case Some(s) =>
      match RuleFromStr(env, s)
      case Ok(rule) => Set(a, rule, ctx)
      case Err(e) => (a, ctx + [e])
  }

  /** One `rename_all` item: the updated accumulators and what the item reports. */
  function RenameAllStep(env: Env, acc: RuleAcc, m: MetaItem): (RuleAcc, seq<string>)
    requires IsRenameAllItem(m)
  {
    if IsRenameAllValue(m) then
      match ToLitStr(m.lit, [], RENAME_ALL)
      case (Err(_), d) => (acc, d)
      case (Ok(s), _) =>
        match RuleFromStr(env, s)
        case Err(e) => (acc, [e])
        case Ok(rule) =>
          var (ser, d1) := Set(acc.ser, rule, []);
          var (de, d2) := Set(acc.de, rule, d1);
          (RuleAcc(ser, de), d2)
    else
      match GetRenames([], m.nested)
      case (Err(_), d) => (acc, d)
      case (Ok((sv, dv)), d) =>
        var (ser, d1) := SetRule(env, acc.ser, sv, d);
        var (de, d2) := SetRule(env, acc.de, dv, d1);
        (RuleAcc(ser, de), d2)
  }

  /** The accumulators after the `rename_all` items among `items`; other items are passed over. */
  function FoldRules(env: Env, items: seq<MetaItem>, acc: RuleAcc): RuleAcc
    decreases |items|
  {
    if |items| == 0 then acc
    else FoldRules(env, items[1..], if IsRenameAllItem(items[0]) then RenameAllStep(env, acc, items[0]).0 else acc)
  }

  /** The rules the accumulators hold, with no rule for an empty side. */
  function Rules(acc: RuleAcc): RenameAllRules {
    RenameAllRules(
      if acc.ser.value.Some? then acc.ser.value.value else NoRule,
      if acc.de.value.Some? then acc.de.value.value else NoRule)
  }

  // ---------------------------------------------------------------------------
  // Reference readings of an item list
  // ---------------------------------------------------------------------------

  /** The grouped form is accepted: only serialize/deserialize items, at most one of each. */
  predicate AcceptedRenameAllList(m: MetaItem)
    requires m.List?
  {
    WellFormed(m.nested) && |SideValues(m.nested, SERIALIZE)| <= 1 && |SideValues(m.nested, DESERIALIZE)| <= 1
  }

  /** A side's rule text, when it names a known rule. */
  function KnownRule(env: Env, v: seq<string>): seq<RenameRule> {
    if |v| == 1 && env.isRenameRule(v[0]) then [Rule(v[0])] else []
  }

  /** The serialize rule one item offers. */
  function SerRuleOf(env: Env, m: MetaItem): seq<RenameRule> {
    if IsRenameAllValue(m) && m.lit.Str? then KnownRule(env, [m.lit.value])
    else if IsRenameAllList(m) && AcceptedRenameAllList(m) then KnownRule(env, SideValues(m.nested, SERIALIZE))
    else []
  }

  /** The deserialize rule one item offers. */
  function DeRuleOf(env: Env, m: MetaItem): seq<RenameRule> {
    if IsRenameAllValue(m) && m.lit.Str? then KnownRule(env, [m.lit.value])
    else if IsRenameAllList(m) && AcceptedRenameAllList(m) then KnownRule(env, SideValues(m.nested, DESERIALIZE))
    else []
  }

  function SerRuleValues(env: Env, items: seq<MetaItem>): seq<RenameRule>
    decreases |items|
  {
    if |items| == 0 then [] else SerRuleOf(env, items[0]) + SerRuleValues(env, items[1..])
  }

  function DeRuleValues(env: Env, items: seq<MetaItem>): seq<RenameRule>
    decreases |items|
  {
    if |items| == 0 then [] else DeRuleOf(env, items[0]) + DeRuleValues(env, items[1..])
  }

  /** A list's first element, or no rule. */
  function FirstRule(rs: seq<RenameRule>): RenameRule {
    if |rs| > 0 then rs[0] else NoRule
  }

  // ---------------------------------------------------------------------------
  // Properties
  // ---------------------------------------------------------------------------

  lemma SetRuleValue(env: Env, a: Attr<RenameRule>, v: Option<string>, ctx: Ctx)
    ensures SetRule(env, a, v, ctx).0.value
         == if a.value.Some? then a.value
            else FirstOf(KnownRule(env, if v.Some? then [v.value] else []))
    ensures SetRule(env, a, v, ctx).0.name == a.name
  {
  }

  /** Each item stores the first rule it offers on each side, unless that side is already set. */
  lemma RenameAllStepRules(env: Env, acc: RuleAcc, m: MetaItem)
    requires IsRenameAllItem(m)
    ensures RenameAllStep(env, acc, m).0.ser.value == FirstWins(acc.ser.value, SerRuleOf(env, m))
    ensures RenameAllStep(env, acc, m).0.de.value == FirstWins(acc.de.value, DeRuleOf(env, m))
    ensures RenameAllStep(env, acc, m).0.ser.name == acc.ser.name
    ensures RenameAllStep(env, acc, m).0.de.name == acc.de.name
  {
    if IsRenameAllList(m) {
      var (r, d) := GetRenames([], m.nested);
      if r.Ok? {
        var (sv, dv) := r.value;
        SetRuleValue(env, acc.ser, sv, d);
        var (ser, d1) := SetRule(env, acc.ser, sv, d);
        SetRuleValue(env, acc.de, dv, d1);
        assert KnownRule(env, if sv.Some? then [sv.value] else []) == KnownRule(env, SideValues(m.nested, SERIALIZE));
        assert KnownRule(env, if dv.Some? then [dv.value] else []) == KnownRule(env, SideValues(m.nested, DESERIALIZE));
      }
    }
  }

  lemma NonRuleItemOffersNothing(env: Env, m: MetaItem)
    requires !IsRenameAllItem(m)
    ensures SerRuleOf(env, m) == [] && DeRuleOf(env, m) == []
  {
  }

  /** Over a whole item list, each side holds the first rule offered for it. */
  lemma {:induction false} FoldRulesFirstWins(env: Env, items: seq<MetaItem>, acc: RuleAcc)
    ensures FoldRules(env, items, acc).ser.value == FirstWins(acc.ser.value, SerRuleValues(env, items))
    ensures FoldRules(env, items, acc).de.value == FirstWins(acc.de.value, DeRuleValues(env, items))
    decreases |items|
  {
    if |items| > 0 {
      var m := items[0];
      var acc1 := if IsRenameAllItem(m) then RenameAllStep(env, acc, m).0 else acc;
      assert FoldRules(env, items, acc) == FoldRules(env, items[1..], acc1);
      if IsRenameAllItem(m) {
        RenameAllStepRules(env, acc, m);
      } else {
        NonRuleItemOffersNothing(env, m);
      }
      FoldRulesFirstWins(env, items[1..], acc1);
      FirstWinsStep(acc.ser.value, SerRuleOf(env, m), SerRuleValues(env, items[1..]));
      FirstWinsStep(acc.de.value, DeRuleOf(env, m), DeRuleValues(env, items[1..]));
    }
  }

  /** The resolved rules of an item list: the first rule offered for each side, else no rule. */
  lemma FoldRulesResolved(env: Env, items: seq<MetaItem>)
    ensures Rules(FoldRules(env, items, FreshRules))
         == RenameAllRules(FirstRule(SerRuleValues(env, items)), FirstRule(DeRuleValues(env, items)))
  {
    FoldRulesFirstWins(env, items, FreshRules);
  }

  /** A single-form rule that is unknown is reported and sets neither side. */
  lemma UnknownRuleReported(env: Env, acc: RuleAcc, m: MetaItem)
    requires IsRenameAllValue(m) && m.lit.Str? && !env.isRenameRule(m.lit.value)
    ensures RenameAllStep(env, acc, m) == (acc, [UnknownRuleMessage(m.lit.value)])
  {
  }

  /**
   * A second single-form `rename_all` with a known rule is a duplicate on
   * both sides: it reports twice and changes nothing.
   */
  lemma RepeatedRuleReportedTwice(env: Env, acc: RuleAcc, m: MetaItem)
    requires IsRenameAllValue(m) && m.lit.Str? && env.isRenameRule(m.lit.value)
    requires acc.ser.value.Some? && acc.de.value.Some?
    ensures RenameAllStep(env, acc, m).0 == acc
    ensures RenameAllStep(env, acc, m).1 == [DuplicateMessage(acc.ser.name), DuplicateMessage(acc.de.name)]
  {
  }
}
