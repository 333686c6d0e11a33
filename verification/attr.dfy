/**
 * Per-keyword accumulators used while one container, field or variant is
 * parsed: `Attr` holds at most one value, `BoolAttr` records presence and
 * `VecAttr` collects every value. Misuse is reported as a diagnostic pushed
 * onto the context, which is modelled as the list of messages so far.
 */
module Accumulators {
  import opened Wrappers
  import opened Symbols

  /** The diagnostics context: every error message recorded so far, oldest first. */
  type Ctx = seq<string>

  /** `k` copies of one message. */
  function Copies(msg: string, k: nat): (r: seq<string>)
    ensures |r| == k
    ensures forall i :: 0 <= i < k ==> r[i] == msg
    decreases k
  {
    if k == 0 then [] else [msg] + Copies(msg, k - 1)
  }

  // ---------------------------------------------------------------------------
  // Attr<T>
  // ---------------------------------------------------------------------------

  datatype Attr<T> = Attr(name: Symbol, value: Option<T>)

  function NewAttr<T>(name: Symbol): (a: Attr<T>)
    ensures a.name == name && a.value.None?
  {
    Attr(name, None)
  }

  function DuplicateMessage(name: Symbol): string {
    "duplicate redis attribute `" + Display(name) + "`"
  }

  /** `Attr::set`: the first value sticks; any later one is reported as a duplicate. */
  function Set<T>(a: Attr<T>, v: T, ctx: Ctx): (r: (Attr<T>, Ctx))
    ensures r.0.name == a.name
    ensures a.value.None? ==> r.0.value == Some(v) && r.1 == ctx
    ensures a.value.Some? ==> r.0.value == a.value && r.1 == ctx + [DuplicateMessage(a.name)]
  {
    if a.value.Some? then (a, ctx + [DuplicateMessage(a.name)])
    else (a.(value := Some(v)), ctx)
  }

  /** `Attr::set_opt`: nothing for None, `set` for Some. */
  function SetOpt<T>(a: Attr<T>, v: Option<T>, ctx: Ctx): (r: (Attr<T>, Ctx))
    ensures v.None? ==> r.0.value == a.value && r.1 == ctx
    ensures v.Some? ==> r.0.value == Set(a, v.value, ctx).0.value && r.1 == Set(a, v.value, ctx).1
  {
    match v
    case None => (a, ctx)
    case Some(x) => Set(a, x, ctx)
  }

  /** `Attr::set_if_none`: fills an empty accumulator, never reports anything. */
  function SetIfNone<T>(a: Attr<T>, v: T): (r: Attr<T>)
    ensures r.name == a.name
    ensures a.value.Some? ==> r.value == a.value
    ensures a.value.None? ==> r.value == Some(v)
  {
    if a.value.None? then a.(value := Some(v)) else a
  }

  /** `set` applied to each value in turn. */
  function SetAll<T>(a: Attr<T>, vs: seq<T>, ctx: Ctx): (Attr<T>, Ctx)
    decreases |vs|
  {
    if |vs| == 0 then (a, ctx)
    else
      var (a1, c1) := Set(a, vs[0], ctx);
      SetAll(a1, vs[1..], c1)
  }

  /** Setting a fresh accumulator `n` times keeps the first value and reports `n - 1` duplicates. */
  lemma {:induction false} SetAllKeepsFirst<T>(a: Attr<T>, vs: seq<T>, ctx: Ctx)
    requires a.value.None? && |vs| > 0
    ensures SetAll(a, vs, ctx).0.value == Some(vs[0])
    ensures SetAll(a, vs, ctx).1 == ctx + Copies(DuplicateMessage(a.name), |vs| - 1)
  {
    var (a1, c1) := Set(a, vs[0], ctx);
    SetAllOnFilled(a1, vs[1..], c1);
  }

  lemma {:induction false} SetAllOnFilled<T>(a: Attr<T>, vs: seq<T>, ctx: Ctx)
    requires a.value.Some?
    ensures SetAll(a, vs, ctx).0 == a
    ensures SetAll(a, vs, ctx).1 == ctx + Copies(DuplicateMessage(a.name), |vs|)
    decreases |vs|
  {
    if |vs| > 0 {
      var (a1, c1) := Set(a, vs[0], ctx);
      SetAllOnFilled(a1, vs[1..], c1);
      assert [DuplicateMessage(a.name)] + Copies(DuplicateMessage(a.name), |vs| - 1)
          == Copies(DuplicateMessage(a.name), |vs|);
    }
  }

  // ---------------------------------------------------------------------------
  // BoolAttr
  // ---------------------------------------------------------------------------

  datatype BoolAttr = BoolAttr(inner: Attr<()>)

  function NewBool(name: Symbol): (b: BoolAttr)
    ensures !GetBool(b)
  {
    BoolAttr(NewAttr(name))
  }

  /** `BoolAttr::get`. */
  predicate GetBool(b: BoolAttr) {
    b.inner.value.Some?
  }

  /** `BoolAttr::set_true`: a `set` of the unit value, so a repeat is a duplicate. */
  function SetTrue(b: BoolAttr, ctx: Ctx): (r: (BoolAttr, Ctx))
    ensures GetBool(r.0)
    ensures r.0.inner.name == b.inner.name
    ensures !GetBool(b) ==> r.1 == ctx
    ensures GetBool(b) ==> r.1 == ctx + [DuplicateMessage(b.inner.name)]
  {
    var (a, c) := Set(b.inner, (), ctx);
    (BoolAttr(a), c)
  }

  /** `set_true` applied `n` times. */
  function SetTrueTimes(b: BoolAttr, n: nat, ctx: Ctx): (BoolAttr, Ctx)
    decreases n
  {
    if n == 0 then (b, ctx)
    else
      var (b1, c1) := SetTrue(b, ctx);
      SetTrueTimes(b1, n - 1, c1)
  }

  /** A flag reads true exactly when `set_true` ran at least once; every call after the first is a duplicate. */
  lemma {:induction false} SetTrueTimesCounts(name: Symbol, n: nat, ctx: Ctx)
    ensures GetBool(SetTrueTimes(NewBool(name), n, ctx).0) <==> n >= 1
    ensures SetTrueTimes(NewBool(name), n, ctx).1
         == ctx + Copies(DuplicateMessage(name), if n == 0 then 0 else n - 1)
  {
    if n > 0 {
      var (b1, c1) := SetTrue(NewBool(name), ctx);
      SetTrueTimesOnSet(b1, n - 1, c1);
    }
  }

  lemma {:induction false} SetTrueTimesOnSet(b: BoolAttr, n: nat, ctx: Ctx)
    requires GetBool(b)
    ensures GetBool(SetTrueTimes(b, n, ctx).0)
    ensures SetTrueTimes(b, n, ctx).1 == ctx + Copies(DuplicateMessage(b.inner.name), n)
    decreases n
  {
    if n > 0 {
      var (b1, c1) := SetTrue(b, ctx);
      SetTrueTimesOnSet(b1, n - 1, c1);
      assert [DuplicateMessage(b.inner.name)] + Copies(DuplicateMessage(b.inner.name), n - 1)
          == Copies(DuplicateMessage(b.inner.name), n);
    }
  }

  // ---------------------------------------------------------------------------
  // VecAttr<T>
  // ---------------------------------------------------------------------------

  datatype VecAttr<T> = VecAttr(name: Symbol, values: seq<T>)

  function NewVec<T>(name: Symbol): (v: VecAttr<T>)
    ensures v.name == name && |v.values| == 0
  {
    VecAttr(name, [])
  }

  /** `VecAttr::insert`: the value is kept after all earlier ones; nothing is reported. */
  function Insert<T>(v: VecAttr<T>, x: T): (r: VecAttr<T>)
    ensures r.name == v.name
    ensures |r.values| == |v.values| + 1
    ensures r.values[..|v.values|] == v.values && r.values[|v.values|] == x
  {
    v.(values := v.values + [x])
  }

  function InsertAll<T>(v: VecAttr<T>, xs: seq<T>): VecAttr<T>
    decreases |xs|
  {
    if |xs| == 0 then v else InsertAll(Insert(v, xs[0]), xs[1..])
  }

  /** `VecAttr::get` after inserting `xs` into a fresh accumulator returns `xs`: insertion order, duplicates kept. */
  lemma {:induction false} InsertAllInOrder<T>(v: VecAttr<T>, xs: seq<T>)
    ensures InsertAll(v, xs).values == v.values + xs
    decreases |xs|
  {
    if |xs| > 0 {
      InsertAllInOrder(Insert(v, xs[0]), xs[1..]);
      assert v.values + [xs[0]] + xs[1..] == v.values + xs;
    }
  }

  function AtMostOneMessage(name: Symbol): string {
    "duplicate neo4j attribute `" + Display(name) + "`"
  }

  /** `VecAttr::at_most_one`: the sole value (or None), or one diagnostic and Err when there are several. */
  function AtMostOne<T>(v: VecAttr<T>, ctx: Ctx): (r: (Result<Option<T>, ()>, Ctx))
    ensures r.0.Err? <==> |v.values| > 1
    ensures r.0.Err? ==> r.1 == ctx + [AtMostOneMessage(v.name)]
    ensures r.0.Ok? ==> r.1 == ctx
    ensures r.0.Ok? ==> (r.0.value.Some? <==> |v.values| == 1)
    ensures r.0.Ok? && r.0.value.Some? ==> r.0.value.value == v.values[0]
  {
    if |v.values| > 1 then (Err(()), ctx + [AtMostOneMessage(v.name)])
    else if |v.values| == 1 then (Ok(Some(v.values[|v.values| - 1])), ctx)
    else (Ok(None), ctx)
  }
}
