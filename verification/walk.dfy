/**
 * The walk every attribute parser performs: keep only attributes whose path
 * is `redis`, parse each as a list, and hand the nested items one at a time
 * to the parser's step. An attribute that is not a list, or that does not
 * parse, is reported when the walk reaches it and contributes no items; the
 * walk is lazy, so such reports fall between the reports of the items.
 */
module AttrWalk {
  import opened Wrappers
  import opened Syntax
  import opened Symbols
  import opened Accumulators

  /** One parser step: the new state and the diagnostics this item produces. */
  type StepFn<!S> = (S, MetaItem) -> (S, seq<string>)

  const ExpectedListMessage: string := "expected #[redis(...)]"

  /** Every parser reports a bare literal item with these words, fields and variants included. */
  const UnexpectedLiteralMessage: string := "unexpected literal in redis container attribute"

  /** The report for an unrecognised item on a field or a variant. */
  function UnknownFieldMessage(p: Path): string {
    "unknown redis field attribute `" + PathText(p) + "`"
  }

  /** The report for an unrecognised item on a struct or an enum. */
  function UnknownContainerMessage(p: Path): string {
    "unknown redis container attribute `" + PathText(p) + "`"
  }

  predicate IsRedis(a: Attribute) {
    PathIs(a.path, REDIS)
  }

  /** Feeds the items to the step in order, appending what each reports. */
  function WalkItems<S>(items: seq<MetaItem>, st: S, ctx: Ctx, step: StepFn<S>): (S, Ctx)
    decreases |items|
  {
    if |items| == 0 then (st, ctx)
    else
      var (s1, d1) := step(st, items[0]);
      WalkItems(items[1..], s1, ctx + d1, step)
  }

  /** The state alone after feeding the items. */
  function FoldState<S>(items: seq<MetaItem>, st: S, step: StepFn<S>): S
    decreases |items|
  {
    if |items| == 0 then st else FoldState(items[1..], step(st, items[0]).0, step)
  }

  /** The items of every `#[redis(...)]` list attribute, in order. */
  function RedisItems(attrs: seq<Attribute>): seq<MetaItem>
    decreases |attrs|
  {
    if |attrs| == 0 then []
    else if IsRedis(attrs[0]) && attrs[0].body.ListBody? then attrs[0].body.nested + RedisItems(attrs[1..])
    else RedisItems(attrs[1..])
  }

  /** The attributes whose path is `redis`, in order. */
  function RedisOnly(attrs: seq<Attribute>): (r: seq<Attribute>)
    ensures forall i :: 0 <= i < |r| ==> IsRedis(r[i])
    decreases |attrs|
  {
    if |attrs| == 0 then []
    else if IsRedis(attrs[0]) then [attrs[0]] + RedisOnly(attrs[1..])
    else RedisOnly(attrs[1..])
  }

  /** The walk over an item's attributes (`flat_map` over `parse_meta`, then `for_each`). */
  function WalkAttrs<S>(attrs: seq<Attribute>, st: S, ctx: Ctx, step: StepFn<S>): (S, Ctx)
    decreases |attrs|
  {
    if |attrs| == 0 then (st, ctx)
    else if !IsRedis(attrs[0]) then WalkAttrs(attrs[1..], st, ctx, step)
    else match attrs[0].body
      case ListBody(items) =>
        var (s1, c1) := WalkItems(items, st, ctx, step);
        WalkAttrs(attrs[1..], s1, c1, step)
      case WordBody => WalkAttrs(attrs[1..], st, ctx + [ExpectedListMessage], step)
      case ValueBody(_) => WalkAttrs(attrs[1..], st, ctx + [ExpectedListMessage], step)
      case Unparsable(msg) => WalkAttrs(attrs[1..], st, ctx + [msg], step)
  }

  lemma {:induction false} WalkItemsState<S>(items: seq<MetaItem>, st: S, ctx: Ctx, step: StepFn<S>)
    ensures WalkItems(items, st, ctx, step).0 == FoldState(items, st, step)
    decreases |items|
  {
    if |items| > 0 {
      var (s1, d1) := step(st, items[0]);
      WalkItemsState(items[1..], s1, ctx + d1, step);
    }
  }

  /** Feeding `a + b` is feeding `a`, then `b`. */
  lemma {:induction false} FoldStateAppend<S>(a: seq<MetaItem>, b: seq<MetaItem>, st: S, step: StepFn<S>)
    ensures FoldState(a + b, st, step) == FoldState(b, FoldState(a, st, step), step)
    decreases |a|
  {
    if |a| > 0 {
      assert (a + b)[0] == a[0] && (a + b)[1..] == a[1..] + b;
      FoldStateAppend(a[1..], b, step(st, a[0]).0, step);
    } else {
      assert a + b == b;
    }
  }

  /**
   * Only the items of `redis` list attributes reach the step: the state after
   * the walk is the state after feeding exactly those items, whatever else
   * the attributes hold and whatever was reported on the way.
   */
  lemma {:induction false} WalkAttrsState<S>(attrs: seq<Attribute>, st: S, ctx: Ctx, step: StepFn<S>)
    ensures WalkAttrs(attrs, st, ctx, step).0 == FoldState(RedisItems(attrs), st, step)
    decreases |attrs|
  {
    if |attrs| > 0 {
      if !IsRedis(attrs[0]) {
        WalkAttrsState(attrs[1..], st, ctx, step);
      } else {
        match attrs[0].body
        case ListBody(items) =>
          var (s1, c1) := WalkItems(items, st, ctx, step);
          WalkItemsState(items, st, ctx, step);
          WalkAttrsState(attrs[1..], s1, c1, step);
          FoldStateAppend(items, RedisItems(attrs[1..]), st, step);
        case WordBody => WalkAttrsState(attrs[1..], st, ctx + [ExpectedListMessage], step);
        case ValueBody(_) => WalkAttrsState(attrs[1..], st, ctx + [ExpectedListMessage], step);
        case Unparsable(msg) => WalkAttrsState(attrs[1..], st, ctx + [msg], step);
      }
    }
  }

  /** Attributes with any other path are ignored entirely: they change neither the state nor the diagnostics. */
  lemma {:induction false} WalkAttrsIgnoresOthers<S>(attrs: seq<Attribute>, st: S, ctx: Ctx, step: StepFn<S>)
    ensures WalkAttrs(attrs, st, ctx, step) == WalkAttrs(RedisOnly(attrs), st, ctx, step)
    decreases |attrs|
  {
    if |attrs| > 0 {
      if !IsRedis(attrs[0]) {
        WalkAttrsIgnoresOthers(attrs[1..], st, ctx, step);
      } else {
        var r := RedisOnly(attrs);
        assert r[0] == attrs[0] && r[1..] == RedisOnly(attrs[1..]);
        match attrs[0].body
        case ListBody(items) =>
          var (s1, c1) := WalkItems(items, st, ctx, step);
          WalkAttrsIgnoresOthers(attrs[1..], s1, c1, step);
        case WordBody => WalkAttrsIgnoresOthers(attrs[1..], st, ctx + [ExpectedListMessage], step);
        case ValueBody(_) => WalkAttrsIgnoresOthers(attrs[1..], st, ctx + [ExpectedListMessage], step);
        case Unparsable(msg) => WalkAttrsIgnoresOthers(attrs[1..], st, ctx + [msg], step);
      }
    }
  }

  /** The walk only ever adds diagnostics. */
  lemma {:induction false} WalkAttrsExtends<S>(attrs: seq<Attribute>, st: S, ctx: Ctx, step: StepFn<S>)
    ensures |WalkAttrs(attrs, st, ctx, step).1| >= |ctx|
    ensures WalkAttrs(attrs, st, ctx, step).1[..|ctx|] == ctx
    decreases |attrs|
  {
    if |attrs| > 0 {
      if !IsRedis(attrs[0]) {
        WalkAttrsExtends(attrs[1..], st, ctx, step);
      } else {
        match attrs[0].body
        case ListBody(items) =>
          var (s1, c1) := WalkItems(items, st, ctx, step);
          WalkItemsExtends(items, st, ctx, step);
          WalkAttrsExtends(attrs[1..], s1, c1, step);
          assert c1[..|ctx|] == ctx;
        case WordBody =>
          WalkAttrsExtends(attrs[1..], st, ctx + [ExpectedListMessage], step);
          assert (ctx + [ExpectedListMessage])[..|ctx|] == ctx;
        case ValueBody(_) =>
          WalkAttrsExtends(attrs[1..], st, ctx + [ExpectedListMessage], step);
          assert (ctx + [ExpectedListMessage])[..|ctx|] == ctx;
        case Unparsable(msg) =>
          WalkAttrsExtends(attrs[1..], st, ctx + [msg], step);
          assert (ctx + [msg])[..|ctx|] == ctx;
      }
    }
  }

  lemma {:induction false} WalkItemsExtends<S>(items: seq<MetaItem>, st: S, ctx: Ctx, step: StepFn<S>)
    ensures |WalkItems(items, st, ctx, step).1| >= |ctx|
    ensures WalkItems(items, st, ctx, step).1[..|ctx|] == ctx
    decreases |items|
  {
    if |items| > 0 {
      var (s1, d1) := step(st, items[0]);
      WalkItemsExtends(items[1..], s1, ctx + d1, step);
      assert (ctx + d1)[..|ctx|] == ctx;
    }
  }

  // ---------------------------------------------------------------------------
  // Recognising keyword items
  // ---------------------------------------------------------------------------

  /** The bare keyword `sym`. */
  predicate IsWordOf(m: MetaItem, sym: Symbol) {
    m.Word? && PathIs(m.path, sym)
  }

  /** `sym = lit`. */
  predicate IsValueOf(m: MetaItem, sym: Symbol) {
    m.NameValue? && PathIs(m.path, sym)
  }

  /** `sym(...)`. */
  predicate IsListOf(m: MetaItem, sym: Symbol) {
    m.List? && PathIs(m.path, sym)
  }

  /** Some item is the bare keyword `sym`. */
  predicate HasWord(items: seq<MetaItem>, sym: Symbol) {
    exists i :: 0 <= i < |items| && IsWordOf(items[i], sym)
  }

  lemma HasWordCons(items: seq<MetaItem>, sym: Symbol)
    requires |items| > 0
    ensures HasWord(items, sym) <==> IsWordOf(items[0], sym) || HasWord(items[1..], sym)
  {
    if HasWord(items[1..], sym) {
      var i :| 0 <= i < |items[1..]| && IsWordOf(items[1..][i], sym);
      assert items[i + 1] == items[1..][i];
    }
    if HasWord(items, sym) && !IsWordOf(items[0], sym) {
      var i :| 0 <= i < |items| && IsWordOf(items[i], sym);
      assert items[1..][i - 1] == items[i];
    }
  }
}
