/**
 * Collaborators whose source is not part of this model: the `RenameRule`
 * parser and case converter, the `Derive` model-type parser and the
 * expression-path parser behind `LitStr::parse`. Each is a parameter of the
 * model, bundled in `Env`; only what the macros themselves rely on is fixed.
 */
module Collaborators {
  import opened Wrappers

  /** A `rename_all` rule: no rule, or a named case convention. */
  datatype RenameRule = NoRule | Rule(name: string)

  datatype RenameAllRules = RenameAllRules(serialize: RenameRule, deserialize: RenameRule)

  const NoRules: RenameAllRules := RenameAllRules(NoRule, NoRule)

  /** The kind of model a container derives; `HashModel` is the only one. */
  datatype Derive = HashModel

  datatype Env = Env(
    /** Whether `RenameRule::from_str` accepts the text. */
    isRenameRule: string -> bool,
    /** `RenameRule::apply_to_field(rule, name)` for a named rule. */
    applyToField: (string, string) -> string,
    /** `RenameRule::apply_to_variant(rule, name)` for a named rule. */
    applyToVariant: (string, string) -> string,
    /** Whether `Derive::from_lit_str` accepts the text. */
    isModelType: string -> bool,
    /** Whether the text parses as an expression path (`LitStr::parse::<ExprPath>`). */
    isExprPath: string -> bool
  )

  /** The diagnostic `RenameRule::from_str` reports; its wording is not part of this model. */
  function UnknownRuleMessage(s: string): string {
    "unknown rename rule `rename_all = " + s + "`"
  }

  /** The diagnostic `Derive::from_lit_str` reports; its wording is not part of this model. */
  function UnknownModelTypeMessage(s: string): string {
    "unknown model type `" + s + "`"
  }

  /** `RenameRule::from_str`. */
  function RuleFromStr(env: Env, s: string): (r: Result<RenameRule, string>)
    ensures r.Ok? <==> env.isRenameRule(s)
    ensures r.Ok? ==> r.value == Rule(s)
    ensures r.Err? ==> r.error == UnknownRuleMessage(s)
  {
    if env.isRenameRule(s) then Ok(Rule(s)) else Err(UnknownRuleMessage(s))
  }

  /** `RenameRule::apply_to_field`; no rule leaves the name alone. */
  function ApplyToField(env: Env, rule: RenameRule, name: string): (r: string)
    ensures rule.NoRule? ==> r == name
  {
    match rule
    case NoRule => name
    case Rule(n) => env.applyToField(n, name)
  }

  /** `RenameRule::apply_to_variant`; no rule leaves the name alone. */
  function ApplyToVariant(env: Env, rule: RenameRule, name: string): (r: string)
    ensures rule.NoRule? ==> r == name
  {
    match rule
    case NoRule => name
    case Rule(n) => env.applyToVariant(n, name)
  }
}
