/**
 * `util::parse::attributes`: the older reading of `#[redis(...)]`
 * attributes into a string map, which the legacy codecs use. Only
 * `name = "value"` items are kept, a later one replacing an earlier one of
 * the same name; a name that is not one identifier or a value that is not a
 * string makes the macro panic.
 */
module AttributeMaps {
  import opened Wrappers
  import opened Syntax

  const NameExpectedMessage: string := "Attribute name expected"
  const StringValueMessage: string := "Attribute value must be a string literal"

  /** `AttributeMap`. */
  type AttributeMap = map<string, string>

  /** `attribute.path.is_ident("redis")`. */
  predicate IsRedis(a: Attribute) {
    GetIdent(a.path) == Some("redis")
  }

  /** The items of an attribute that are read: those of a `#[redis(...)]` list. */
  function ReadItems(a: Attribute): seq<MetaItem> {
    if IsRedis(a) && a.body.ListBody? then a.body.nested else []
  }

  /** An item that is read without a panic: anything but a `name = value` with a bad name or value. */
  predicate ItemReadable(m: MetaItem) {
    m.NameValue? ==> GetIdent(m.path).Some? && m.lit.Str?
  }

  /** The message of the panic a `name = value` item raises, if it raises one. */
  function ItemPanic(m: MetaItem): string
    requires !ItemReadable(m)
  {
    if GetIdent(m.path).None? then NameExpectedMessage else StringValueMessage
  }

  predicate AllReadable(attrs: seq<Attribute>) {
    forall i, j :: 0 <= i < |attrs| && 0 <= j < |ReadItems(attrs[i])| ==> ItemReadable(ReadItems(attrs[i])[j])
  }

  // ---------------------------------------------------------------------------
  // The reference: the pairs in order, later ones replacing earlier ones
  // ---------------------------------------------------------------------------

  /** The `(name, value)` pairs of the `name = value` items, in order. */
  function ItemPairs(items: seq<MetaItem>): (r: seq<(string, string)>)
    requires forall j :: 0 <= j < |items| ==> ItemReadable(items[j])
    decreases |items|
  {
    if |items| == 0 then []
    else
      assert ItemReadable(items[0]);
      match items[0]
      case NameValue(p, lit) => [(GetIdent(p).value, lit.value)] + ItemPairs(items[1..])
      case _ => ItemPairs(items[1..])
  }

  function Pairs(attrs: seq<Attribute>): seq<(string, string)>
    requires AllReadable(attrs)
    decreases |attrs|
  {
    if |attrs| == 0 then []
    else
      assert forall j :: 0 <= j < |ReadItems(attrs[0])| ==> ItemReadable(ReadItems(attrs[0])[j]);
      ItemPairs(ReadItems(attrs[0])) + Pairs(attrs[1..])
  }

  /** `m` with each pair inserted in turn. */
  function Override(m: AttributeMap, ps: seq<(string, string)>): AttributeMap
    decreases |ps|
  {
    if |ps| == 0 then m else Override(m[ps[0].0 := ps[0].1], ps[1..])
  }

  // ---------------------------------------------------------------------------
  // The loops of `attributes`
  // ---------------------------------------------------------------------------

  /** The loop over the nested items of one `#[redis(...)]`. */
  function CollectItems(m: AttributeMap, items: seq<MetaItem>): (r: Result<AttributeMap, string>)
    ensures r.Ok? <==> forall j :: 0 <= j < |items| ==> ItemReadable(items[j])
    ensures r.Ok? ==> r.value == Override(m, ItemPairs(items))
    ensures r.Err? ==> r.error == NameExpectedMessage || r.error == StringValueMessage
    decreases |items|
  {
    if |items| == 0 then Ok(m)
    else
      assert forall j :: 1 <= j < |items| ==> items[j] == items[1..][j - 1];
      match items[0]
      case NameValue(p, lit) =>
        (match GetIdent(p)
         case None => Err(NameExpectedMessage)
         case Some(name) =>
           if lit.Str? then CollectItems(m[name := lit.value], items[1..])
           else Err(StringValueMessage))
      case _ => CollectItems(m, items[1..])
  }

  function CollectAttrs(m: AttributeMap, attrs: seq<Attribute>): (r: Result<AttributeMap, string>)
    ensures r.Ok? <==> AllReadable(attrs)
    ensures r.Ok? ==> r.value == Override(m, Pairs(attrs))
    decreases |attrs|
  {
    if |attrs| == 0 then Ok(m)
    else
      assert forall i :: 1 <= i < |attrs| ==> attrs[i] == attrs[1..][i - 1];
      match CollectItems(m, ReadItems(attrs[0]))
      case Err(e) => Err(e)
      case Ok(m1) =>
        var r := CollectAttrs(m1, attrs[1..]);
        if r.Ok? then
          OverrideAppend(m, ItemPairs(ReadItems(attrs[0])), Pairs(attrs[1..]));
          r
        else r
  }

  /**
   * `attributes`: the map of the `name = value` items of the `#[redis(...)]`
   * attributes, or the panic of the first unreadable one.
   */
  function Attributes(attrs: seq<Attribute>): (r: Result<AttributeMap, string>)
    ensures r.Ok? <==> AllReadable(attrs)
    ensures r.Ok? ==> r.value == Override(map[], Pairs(attrs))
  {
    CollectAttrs(map[], attrs)
  }

  // ---------------------------------------------------------------------------
  // Properties
  // ---------------------------------------------------------------------------

  lemma {:induction false} OverrideAppend(m: AttributeMap, a: seq<(string, string)>, b: seq<(string, string)>)
    ensures Override(m, a + b) == Override(Override(m, a), b)
    decreases |a|
  {
    if |a| == 0 {
      assert a + b == b;
    } else {
      assert (a + b)[1..] == a[1..] + b;
      OverrideAppend(m[a[0].0 := a[0].1], a[1..], b);
    }
  }

  /**
   * Last write wins: a name is in the map iff it was given (or was there),
   * and it holds the value of the last pair that gives it.
   */
  lemma {:induction false} OverrideLookup(m: AttributeMap, ps: seq<(string, string)>, k: string)
    ensures k in Override(m, ps) <==> k in m || exists i :: 0 <= i < |ps| && ps[i].0 == k
    ensures forall i :: 0 <= i < |ps| && ps[i].0 == k && (forall j :: i < j < |ps| ==> ps[j].0 != k) ==>
              Override(m, ps)[k] == ps[i].1
    ensures (forall i :: 0 <= i < |ps| ==> ps[i].0 != k) && k in m ==> Override(m, ps)[k] == m[k]
    decreases |ps|
  {
    if |ps| > 0 {
      var m1 := m[ps[0].0 := ps[0].1];
      OverrideLookup(m1, ps[1..], k);
      assert forall i :: 1 <= i < |ps| ==> ps[i] == ps[1..][i - 1];
      if k in Override(m, ps) && k !in m {
        if ps[0].0 != k {
          var i :| 0 <= i < |ps[1..]| && ps[1..][i].0 == k;
          assert ps[i + 1].0 == k;
        }
      }
      forall i | 0 <= i < |ps| && ps[i].0 == k && (forall j :: i < j < |ps| ==> ps[j].0 != k)
        ensures Override(m, ps)[k] == ps[i].1
      {
        if i == 0 {
          assert forall j :: 0 <= j < |ps[1..]| ==> ps[1..][j].0 != k;
        } else {
          assert ps[1..][i - 1].0 == k;
        }
      }
    }
  }

  /** Attributes other than `#[redis(...)]` are not read. */
  lemma OtherAttributesIgnored(a: Attribute, attrs: seq<Attribute>)
    requires !IsRedis(a)
    ensures Attributes([a] + attrs) == Attributes(attrs)
  {
    assert ([a] + attrs)[1..] == attrs;
    assert forall i :: 1 <= i < |[a] + attrs| ==> ([a] + attrs)[i] == attrs[i - 1];
    if AllReadable(attrs) {
      assert ItemPairs(ReadItems(a)) == [];
    }
  }

  /** Only `name = value` items are read: a bare word or a nested list leaves the map as it is. */
  lemma WordsAndListsIgnored(m: AttributeMap, x: MetaItem, items: seq<MetaItem>)
    requires x.Word? || x.List? || x.LitItem?
    ensures CollectItems(m, [x] + items) == CollectItems(m, items)
  {
    assert ([x] + items)[1..] == items;
  }
}

/**
 * `util::string::transform_casing`: the case convention the legacy codecs
 * apply to identifiers. The four word-splitting conventions come from the
 * `heck` crate and are parameters of the model; lower and upper case are
 * modelled on ASCII letters.
 */
module Casing {
  import opened Wrappers
  import opened Strings

  const InvalidCasingMessage: string :=
    "Invalid rename_all value: supported: kebab-case, snake_case, camelCase, PascalCase, lowercase, UPPERCASE"

  /** The `heck` conversions. */
  datatype Heck = Heck(pascal: string -> string, lowerCamel: string -> string, snake: string -> string, kebab: string -> string)

  const SupportedCasings: set<string> := {"lowercase", "UPPERCASE", "PascalCase", "camelCase", "snake_case", "kebab-case"}

  /** `str::to_lowercase` on ASCII letters. */
  function ToLowercase(s: string): (r: string)
    ensures |r| == |s|
    ensures forall i :: 0 <= i < |s| ==> !IsAsciiUpper(r[i])
    ensures forall i :: 0 <= i < |s| && !IsAsciiUpper(s[i]) ==> r[i] == s[i]
    ensures forall i :: 0 <= i < |s| && IsAsciiUpper(s[i]) ==>
      IsAsciiLower(r[i]) && r[i] as int - 'a' as int == s[i] as int - 'A' as int
  {
    seq(|s|, i requires 0 <= i < |s| => AsciiToLower(s[i]))
  }

  /** `str::to_uppercase` on ASCII letters. */
  function ToUppercase(s: string): (r: string)
    ensures |r| == |s|
    ensures forall i :: 0 <= i < |s| ==> !IsAsciiLower(r[i])
    ensures forall i :: 0 <= i < |s| && !IsAsciiLower(s[i]) ==> r[i] == s[i]
    ensures forall i :: 0 <= i < |s| && IsAsciiLower(s[i]) ==>
      IsAsciiUpper(r[i]) && r[i] as int - 'A' as int == s[i] as int - 'a' as int
  {
    seq(|s|, i requires 0 <= i < |s| => AsciiToUpper(s[i]))
  }

  /** `transform_casing(value, casing)`: no rule keeps the text; an unknown rule panics. */
  function TransformCasing(heck: Heck, value: string, casing: Option<string>): (r: Result<string, string>)
    ensures casing.None? ==> r == Ok(value)
    ensures r.Ok? <==> casing.None? || casing.value in SupportedCasings
    ensures r.Err? ==> r.error == InvalidCasingMessage
    ensures casing == Some("lowercase") ==> r == Ok(ToLowercase(value))
    ensures casing == Some("UPPERCASE") ==> r == Ok(ToUppercase(value))
  {
    match casing
    case None => Ok(value)
    case Some(rule) =>
      if rule == "lowercase" then Ok(ToLowercase(value))
      else if rule == "UPPERCASE" then Ok(ToUppercase(value))
      else if rule == "PascalCase" then Ok(heck.pascal(value))
      else if rule == "camelCase" then Ok(heck.lowerCamel(value))
      else if rule == "snake_case" then Ok(heck.snake(value))
      else if rule == "kebab-case" then Ok(heck.kebab(value))
      else Err(InvalidCasingMessage)
  }

  /** Lowering twice is lowering once, and lowering what was raised is lowering. */
  lemma CaseMappingLaws(s: string)
    ensures ToLowercase(ToLowercase(s)) == ToLowercase(s)
    ensures ToUppercase(ToUppercase(s)) == ToUppercase(s)
    ensures ToLowercase(ToUppercase(s)) == ToLowercase(s)
  {
    var u := ToUppercase(s);
    forall i | 0 <= i < |s|
      ensures ToLowercase(u)[i] == ToLowercase(s)[i]
    {
      if IsAsciiLower(s[i]) {
        assert u[i] == (s[i] as int - 32) as char;
      }
    }
  }
}
