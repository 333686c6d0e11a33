/**
 * The derive macros of the crate (`lib.rs`) and the derivations they
 * compose. Each macro builds the container, runs its derivation, and turns
 * the outcome into the macro's output: the generated code, or compile
 * errors for every diagnostic recorded, or a panic of the macro.
 */
module Macros {
  import opened Wrappers
  import opened Syntax
  import opened Accumulators
  import opened Collaborators
  import opened Containers
  import StructCodec
  import EnumCodec
  import RedisModels
  import Schema

  /** The panic of `Result::unwrap_err` on `Ok(())`. */
  const UnwrapErrMessage: string := "called `Result::unwrap_err()` on an `Ok` value: ()"

  // ---------------------------------------------------------------------------
  // Derivations
  // ---------------------------------------------------------------------------

  /** The transport codec of a struct or of a unit enum. */
  datatype ValueImpl = StructImpl(structCodec: StructCodec.Codec) | EnumImpl(enumCodec: EnumCodec.Codec)

  /** What `HashModel` generates: the codec, the `RedisModel` implementation and the schema. */
  datatype HashModelImpl = HashModelImpl(value: ValueImpl, model: RedisModels.ModelImpl, schema: string)

  /** What `JsonModel` generates: the `RedisModel` implementation and the schema. */
  datatype JsonModelImpl = JsonModelImpl(model: RedisModels.ModelImpl, schema: string)

  /** A struct whose derived codec panics while it is built: some field of it is unbuildable. */
  predicate CodecPanics(cont: Container) {
    && cont.data.StructFields? && cont.data.style == StructStyle
    && exists i :: 0 <= i < |cont.data.fields| && StructCodec.Unbuildable(cont.data.fields[i])
  }

  /**
   * `value::derive`: a struct goes to the struct codec, an enum to the tag
   * codec; only the struct codec can panic, on an unbuildable field.
   */
  function ValueDerive(cont: Container, ctx: Ctx): (r: (Derived<ValueImpl>, Ctx))
    ensures cont.data.StructFields? ==>
      var (c, c1) := StructCodec.Derive(cont.ident, cont.data.style, cont.data.fields, ctx);
      && r.1 == c1
      && (r.0.Generated? <==> c.Generated?)
      && (c.Generated? ==> r.0.value == StructImpl(c.value))
    ensures cont.data.EnumVariants? ==>
      var (c, c1) := EnumCodec.Derive(cont.ident, cont.data.variants, ctx);
      r == (if c.Some? then Generated(EnumImpl(c.value)) else Rejected, c1)
    ensures r.0.Panicked? <==> CodecPanics(cont)
  {
    match cont.data
    case StructFields(style, fields) =>
      var (c, c1) := StructCodec.Derive(cont.ident, style, fields, ctx);
      (match c
       case Generated(codec) => (Generated(StructImpl(codec)), c1)
       case Rejected => (Rejected, c1)
       case Panicked(e) => (Panicked(e), c1))
    case EnumVariants(vs) =>
      var (c, c1) := EnumCodec.Derive(cont.ident, vs, ctx);
      (if c.Some? then Generated(EnumImpl(c.value)) else Rejected, c1)
  }

  /**
   * `hash_model::derive`: the codec, then the `RedisModel` implementation,
   * then the schema; the first step that does not generate ends the
   * derivation (`?`), keeping the diagnostics recorded so far.
   */
  function HashModelDerive(cont: Container, ctx: Ctx): (r: (Derived<HashModelImpl>, Ctx))
    ensures var (v, c1) := ValueDerive(cont, ctx);
      && (!v.Generated? ==> r == (if v.Panicked? then Panicked(v.message) else Rejected, c1))
      && (v.Generated? ==>
            var (m, c2) := RedisModels.Derive(cont, c1);
            && (!m.Generated? ==> r == (if m.Panicked? then Panicked(m.message) else Rejected, c2))
            && (m.Generated? ==>
                  var (s, c3) := Schema.HashSchema(cont, c2);
                  && (!s.Generated? ==> r == (if s.Panicked? then Panicked(s.message) else Rejected, c3))
                  && (s.Generated? ==> r == (Generated(HashModelImpl(v.value, m.value, s.value)), c3))))
  {
    var (v, c1) := ValueDerive(cont, ctx);
    if v.Panicked? then (Panicked(v.message), c1)
    else if v.Rejected? then (Rejected, c1)
    else
      var (m, c2) := RedisModels.Derive(cont, c1);
      match m
      case Panicked(e) => (Panicked(e), c2)
      case Rejected => (Rejected, c2)
      case Generated(model) =>
        var (s, c3) := Schema.HashSchema(cont, c2);
        match s
        case Panicked(e) => (Panicked(e), c3)
        case Rejected => (Rejected, c3)
        case Generated(schema) => (Generated(HashModelImpl(v.value, model, schema)), c3)
  }

  /** `json_model::derive`: the `RedisModel` implementation, then the JSON schema. */
  function JsonModelDerive(cont: Container, ctx: Ctx): (r: (Derived<JsonModelImpl>, Ctx))
    ensures var (m, c1) := RedisModels.Derive(cont, ctx);
      && (!m.Generated? ==> r == (if m.Panicked? then Panicked(m.message) else Rejected, c1))
      && (m.Generated? ==>
            var (s, c2) := Schema.JsonSchema(cont, c1);
            && (!s.Generated? ==> r == (if s.Panicked? then Panicked(s.message) else Rejected, c2))
            && (s.Generated? ==> r == (Generated(JsonModelImpl(m.value, s.value)), c2)))
  {
    var (m, c1) := RedisModels.Derive(cont, ctx);
    match m
    case Panicked(e) => (Panicked(e), c1)
    case Rejected => (Rejected, c1)
    case Generated(model) =>
      var (s, c2) := Schema.JsonSchema(cont, c1);
      match s
      case Panicked(e) => (Panicked(e), c2)
      case Rejected => (Rejected, c2)
      case Generated(schema) => (Generated(JsonModelImpl(model, schema)), c2)
  }

  /** A derivation that rejects records at least one diagnostic of its own. */
  predicate Reports<T>(r: (Derived<T>, Ctx), ctx: Ctx) {
    |r.1| >= |ctx| && r.1[..|ctx|] == ctx && (r.0.Rejected? ==> |r.1| > |ctx|)
  }

  lemma ValueReports(cont: Container, ctx: Ctx)
    ensures Reports(ValueDerive(cont, ctx), ctx)
  {
    if cont.data.EnumVariants? {
      var (c, c1) := EnumCodec.Derive(cont.ident, cont.data.variants, ctx);
      assert (ctx + [EnumCodec.OnlyUnitMessage])[..|ctx|] == ctx;
    } else {
      assert (ctx + [UnsupportedStyleMessage(cont.data.style)])[..|ctx|] == ctx;
    }
  }

  lemma ModelReports(cont: Container, ctx: Ctx)
    ensures Reports(RedisModels.Derive(cont, ctx), ctx)
  {
  }

  lemma HashSchemaReports(cont: Container, ctx: Ctx)
    ensures Reports(Schema.HashSchema(cont, ctx), ctx)
  {
    assert (ctx + [Schema.EnumSchemaMessage])[..|ctx|] == ctx;
    if cont.data.StructFields? {
      assert (ctx + [UnsupportedStyleMessage(cont.data.style)])[..|ctx|] == ctx;
    }
  }

  lemma JsonSchemaReports(cont: Container, ctx: Ctx)
    ensures Reports(Schema.JsonSchema(cont, ctx), ctx)
  {
    assert (ctx + [Schema.EnumSchemaMessage])[..|ctx|] == ctx;
    if cont.data.StructFields? {
      assert (ctx + [UnsupportedStyleMessage(cont.data.style)])[..|ctx|] == ctx;
    }
  }

  lemma SearchSchemaReports(cont: Container, ctx: Ctx)
    ensures Reports(Schema.SearchSchema(cont, ctx), ctx)
  {
    assert (ctx + [Schema.SearchEnumMessage])[..|ctx|] == ctx;
    if cont.data.StructFields? {
      assert (ctx + [UnsupportedStyleMessage(cont.data.style)])[..|ctx|] == ctx;
    }
  }

  lemma ReportsCompose<A, B>(a: (Derived<A>, Ctx), b: (Derived<B>, Ctx), ctx: Ctx)
    requires Reports(a, ctx) && Reports(b, a.1)
    ensures |b.1| >= |ctx| && b.1[..|ctx|] == ctx
    ensures b.0.Rejected? ==> |b.1| > |ctx|
  {
    assert b.1[..|ctx|] == b.1[..|a.1|][..|ctx|];
  }

  /** Every composed derivation that rejects has recorded a diagnostic. */
  lemma HashModelReports(cont: Container, ctx: Ctx)
    ensures Reports(HashModelDerive(cont, ctx), ctx)
  {
    ValueReports(cont, ctx);
    var (v, c1) := ValueDerive(cont, ctx);
    if v.Generated? {
      ModelReports(cont, c1);
      var (m, c2) := RedisModels.Derive(cont, c1);
      ReportsCompose(ValueDerive(cont, ctx), RedisModels.Derive(cont, c1), ctx);
      if m.Generated? {
        HashSchemaReports(cont, c2);
        assert c2[..|ctx|] == ctx;
        ReportsCompose((Generated(0), c2), Schema.HashSchema(cont, c2), ctx);
      }
    }
  }

  lemma JsonModelReports(cont: Container, ctx: Ctx)
    ensures Reports(JsonModelDerive(cont, ctx), ctx)
  {
    ModelReports(cont, ctx);
    var (m, c1) := RedisModels.Derive(cont, ctx);
    if m.Generated? {
      JsonSchemaReports(cont, c1);
      ReportsCompose(RedisModels.Derive(cont, ctx), Schema.JsonSchema(cont, c1), ctx);
    }
  }

  // ---------------------------------------------------------------------------
  // The macro's output
  // ---------------------------------------------------------------------------

  /** What a derive macro expands to. */
  datatype Output<T> =
    | Emitted(code: T)                  // the generated items
    | CompileErrors(errors: seq<string>) // one `compile_error!` per diagnostic
    | MacroPanic(message: string)       // the macro panicked: the compiler reports the panic

  /**
   * `into_stream`: any diagnostic replaces the whole output by compile
   * errors; otherwise the generated code. A derivation that failed without
   * a diagnostic meets `check().unwrap_err()` on `Ok` and panics. A panic
   * inside the derivation never reaches here: it is the macro's panic.
   */
  function IntoStream<T>(stream: Derived<T>, ctx: Ctx): (r: Output<T>)
    ensures stream.Panicked? ==> r == MacroPanic(stream.message)
    ensures !stream.Panicked? && |ctx| > 0 ==> r == CompileErrors(ctx)
    ensures stream.Generated? && |ctx| == 0 ==> r == Emitted(stream.value)
    ensures r.MacroPanic? && r.message == UnwrapErrMessage ==>
              stream.Panicked? || (stream.Rejected? && |ctx| == 0)
  {
    match stream
    case Panicked(e) => MacroPanic(e)
    case _ =>
      if |ctx| > 0 then CompileErrors(ctx)
      else match stream
        case Generated(code) => Emitted(code)
        case _ => MacroPanic(UnwrapErrMessage)
  }

  /** `into_container`: the container and the diagnostics so far, or the compile errors when there is none. */
  function IntoContainer<T>(env: Env, input: DeriveInput): (r: Result<(Container, Ctx), Output<T>>)
    ensures var (c, ctx) := New(env, input, []);
      && (c.Some? ==> r == Ok((c.value, ctx)))
      && (c.None? ==> r == Err(CompileErrors(ctx)) && |ctx| > 0)
  {
    var (c, ctx) := New(env, input, []);
    match c
    case Some(cont) => Ok((cont, ctx))
    case None =>
      assert ctx[|ctx| - 1] == UnionMessage;
      Err(CompileErrors(ctx))
  }

  /** The macro's output once the container is built: the derivation's outcome through `into_stream`. */
  function Expand<T>(built: Result<(Container, Ctx), Output<T>>, derive: (Container, Ctx) -> (Derived<T>, Ctx)): Output<T> {
    match built
    case Err(o) => o
    case Ok((cont, ctx)) => var (d, c1) := derive(cont, ctx); IntoStream(d, c1)
  }

  /** `#[derive(RedisTransportValue)]`. */
  function TransportValueMacro(env: Env, input: DeriveInput): Output<ValueImpl> {
    Expand(IntoContainer(env, input), ValueDerive)
  }

  /** `#[derive(RedisModel)]`. */
  function RedisModelMacro(env: Env, input: DeriveInput): Output<RedisModels.ModelImpl> {
    Expand(IntoContainer(env, input), RedisModels.Derive)
  }

  /** `#[derive(HashModel)]`. */
  function HashModelMacro(env: Env, input: DeriveInput): Output<HashModelImpl> {
    Expand(IntoContainer(env, input), HashModelDerive)
  }

  /** `#[derive(JsonModel)]`. */
  function JsonModelMacro(env: Env, input: DeriveInput): Output<JsonModelImpl> {
    Expand(IntoContainer(env, input), JsonModelDerive)
  }

  /**
   * `#[derive(RedisSearchModel)]`: the schema is led by the header of the
   * container's model type, and `HashModel` is the only one.
   */
  function SearchModelMacro(env: Env, input: DeriveInput): Output<string> {
    Expand(IntoContainer(env, input), Schema.SearchSchema)
  }

  // ---------------------------------------------------------------------------
  // Properties of the output
  // ---------------------------------------------------------------------------

  /**
   * A derivation that reports its rejections never meets the `unwrap_err`
   * panic: the output is a panic only when the derivation itself panicked,
   * compile errors exactly when a diagnostic was recorded, and otherwise the
   * generated code unchanged.
   */
  lemma ReportedOutcome<T>(r: (Derived<T>, Ctx), ctx: Ctx)
    requires Reports(r, ctx)
    ensures var o := IntoStream(r.0, r.1);
      && (o.MacroPanic? <==> r.0.Panicked?)
      && (o.MacroPanic? ==> o.message == r.0.message)
      && (o.CompileErrors? <==> !r.0.Panicked? && |r.1| > 0)
      && (o.CompileErrors? ==> o.errors == r.1)
      && (o.Emitted? <==> r.0.Generated? && |r.1| == 0)
      && (o.Emitted? ==> o.code == r.0.value)
  {
  }

  /** Whether the built container's derivation reports its rejections. */
  predicate ReportsOn<T>(built: Result<(Container, Ctx), Output<T>>, derive: (Container, Ctx) -> (Derived<T>, Ctx)) {
    match built
    case Err(o) => o.CompileErrors? && |o.errors| > 0
    case Ok((cont, ctx)) => Reports(derive(cont, ctx), ctx)
  }

  /**
   * The output of a macro whose derivation reports its rejections: a panic
   * exactly when the derivation panicked, the generated code exactly when it
   * generated without any diagnostic, and otherwise compile errors, never
   * empty.
   */
  lemma ExpandOutcome<T>(built: Result<(Container, Ctx), Output<T>>, derive: (Container, Ctx) -> (Derived<T>, Ctx))
    requires ReportsOn(built, derive)
    ensures var o := Expand(built, derive);
      && (o.MacroPanic? <==> built.Ok? && derive(built.value.0, built.value.1).0.Panicked?)
      && (o.Emitted? <==> built.Ok? && derive(built.value.0, built.value.1).0.Generated?
                           && |derive(built.value.0, built.value.1).1| == 0)
      && (o.CompileErrors? ==> |o.errors| > 0)
  {
    if built.Ok? {
      ReportedOutcome(derive(built.value.0, built.value.1), built.value.1);
    }
  }

  /** What `into_container` promises: when there is no container, there is at least one compile error. */
  predicate Built<T>(b: Result<(Container, Ctx), Output<T>>) {
    b.Err? ==> b.error.CompileErrors? && |b.error.errors| > 0
  }

  lemma IntoContainerBuilt<T>(env: Env, input: DeriveInput)
    ensures Built(IntoContainer<T>(env, input))
  {
  }

  /**
   * `#[derive(HashModel)]` (`Expand(IntoContainer(env, input), HashModelDerive)`)
   * panics only when its derivation panics — never at the `unwrap_err` — and
   * emits code only when the container was built and all three derivations
   * generated without a diagnostic.
   */
  lemma HashModelMacroOutcome(b: Result<(Container, Ctx), Output<HashModelImpl>>)
    requires Built(b)
    ensures var o := Expand(b, HashModelDerive);
      && (o.MacroPanic? <==> b.Ok? && HashModelDerive(b.value.0, b.value.1).0.Panicked?)
      && (o.Emitted? <==> b.Ok? && HashModelDerive(b.value.0, b.value.1).0.Generated?
                           && |HashModelDerive(b.value.0, b.value.1).1| == 0)
      && (o.CompileErrors? ==> |o.errors| > 0)
  {
    if b.Ok? {
      HashModelReports(b.value.0, b.value.1);
    }
    ExpandOutcome(b, HashModelDerive);
  }

  lemma JsonModelMacroOutcome(b: Result<(Container, Ctx), Output<JsonModelImpl>>)
    requires Built(b)
    ensures var o := Expand(b, JsonModelDerive);
      && (o.MacroPanic? <==> b.Ok? && JsonModelDerive(b.value.0, b.value.1).0.Panicked?)
      && (o.Emitted? <==> b.Ok? && JsonModelDerive(b.value.0, b.value.1).0.Generated?
                           && |JsonModelDerive(b.value.0, b.value.1).1| == 0)
      && (o.CompileErrors? ==> |o.errors| > 0)
  {
    if b.Ok? {
      JsonModelReports(b.value.0, b.value.1);
    }
    ExpandOutcome(b, JsonModelDerive);
  }

  lemma SearchModelMacroOutcome(b: Result<(Container, Ctx), Output<string>>)
    requires Built(b)
    ensures var o := Expand(b, Schema.SearchSchema);
      && (o.MacroPanic? <==> b.Ok? && Schema.SearchSchema(b.value.0, b.value.1).0.Panicked?)
      && (o.Emitted? <==> b.Ok? && Schema.SearchSchema(b.value.0, b.value.1).0.Generated?
                           && |Schema.SearchSchema(b.value.0, b.value.1).1| == 0)
      && (o.CompileErrors? ==> |o.errors| > 0)
  {
    if b.Ok? {
      SearchSchemaReports(b.value.0, b.value.1);
    }
    ExpandOutcome(b, Schema.SearchSchema);
  }

  /** `#[derive(RedisModel)]` panics only at the unwrap of an unnamed primary-key field. */
  lemma RedisModelMacroPanics(b: Result<(Container, Ctx), Output<RedisModels.ModelImpl>>)
    requires Built(b)
    ensures var o := Expand(b, RedisModels.Derive); o.MacroPanic? ==> o.message == UnwrapNoneMessage
  {
    if b.Ok? {
      ModelReports(b.value.0, b.value.1);
      ReportedOutcome(RedisModels.Derive(b.value.0, b.value.1), b.value.1);
    }
  }

  /** `#[derive(RedisTransportValue)]` panics exactly on a struct with an unbuildable field, such as a read field with a raw identifier. */
  lemma TransportValueMacroPanics(b: Result<(Container, Ctx), Output<ValueImpl>>)
    requires Built(b)
    ensures Expand(b, ValueDerive).MacroPanic? <==> b.Ok? && CodecPanics(b.value.0)
  {
    if b.Ok? {
      ValueReports(b.value.0, b.value.1);
      ReportedOutcome(ValueDerive(b.value.0, b.value.1), b.value.1);
    }
  }

  /** A `HashModel` for an enum is never generated: even a unit enum meets the `RedisModel` rejection. */
  lemma HashModelOfEnumRejected(cont: Container, ctx: Ctx)
    requires cont.data.EnumVariants?
    ensures HashModelDerive(cont, ctx).0 == Rejected
    ensures |HashModelDerive(cont, ctx).1| == |ctx| + 1
  {
  }
}
