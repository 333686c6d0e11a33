/**
 * The parts of Rust's syntax tree (as the `syn` crate presents it) that the
 * macros inspect: paths, types, literals, and the meta items inside
 * `#[redis(...)]` attributes. Spans and token streams are dropped.
 */
module Syntax {
  import opened Wrappers
  import opened Strings

  /** One path segment, `ident` or `ident<args>`. */
  datatype Segment = Segment(ident: string, args: PathArgs)

  datatype PathArgs =
    | NoArgs
    | Angle(args: seq<GenericArg>)   // `<A, B>`
    | Parenthesized                   // `Fn(A) -> B`

  /** A generic argument: a type, or anything else (lifetime, const, binding). */
  datatype GenericArg = TypeArg(ty: Type) | OtherArg

  /** `a::b::c`, possibly with a leading `::`. */
  datatype Path = Path(leadingColon: bool, segments: seq<Segment>)

  datatype Type =
    | PathType(path: Path)
    | Reference(mutable: bool, elem: Type)
    | Array(elem: Type)
    | Group(elem: Type)
    | Paren(elem: Type)
    | Tuple(elems: seq<Type>)
    | OtherType                       // slices, raw references, `fn` types, trait objects, ...

  /** A literal: only the string case is ever read. */
  datatype Lit = Str(value: string) | OtherLit(text: string)

  /** A nested item of an attribute: `word`, `name = lit`, `name(...)` or a bare literal. */
  datatype MetaItem =
    | Word(path: Path)
    | NameValue(path: Path, lit: Lit)
    | List(path: Path, nested: seq<MetaItem>)
    | LitItem(lit: Lit)

  /** What `Attribute::parse_meta` makes of the tokens after an attribute's path. */
  datatype AttrBody =
    | ListBody(nested: seq<MetaItem>)   // `#[p(...)]`
    | WordBody                          // `#[p]`
    | ValueBody(lit: Lit)               // `#[p = lit]`
    | Unparsable(message: string)       // a syntax error, with the parser's message

  /** An outer attribute `#[path ...]`. */
  datatype Attribute = Attribute(path: Path, body: AttrBody)

  /** The path of a single identifier. */
  function IdentPath(ident: string): Path {
    Path(false, [Segment(ident, NoArgs)])
  }

  /** `Path::get_ident`: the identifier of a path that is exactly one bare identifier. */
  function GetIdent(p: Path): (r: Option<string>)
    ensures r.Some? <==> exists s :: p == IdentPath(s)
    ensures r.Some? ==> p == IdentPath(r.value)
  {
    if !p.leadingColon && |p.segments| == 1 && p.segments[0].args == NoArgs then
      assert p == IdentPath(p.segments[0].ident);
      Some(p.segments[0].ident)
    else None
  }

  /** The path written as source text, without spaces (`a::b`). Generic arguments are not rendered. */
  function PathText(p: Path): string {
    (if p.leadingColon then "::" else "") + Join(SegmentIdents(p.segments), "::")
  }

  function SegmentIdents(segs: seq<Segment>): (r: seq<string>)
    ensures |r| == |segs|
    ensures forall i :: 0 <= i < |segs| ==> r[i] == segs[i].ident
    decreases |segs|
  {
    if |segs| == 0 then [] else [segs[0].ident] + SegmentIdents(segs[1..])
  }

  /** The path of a meta item, for the items that have one. */
  function MetaPath(m: MetaItem): Path
    requires !m.LitItem?
  {
    m.path
  }

  // ---------------------------------------------------------------------------
  // The derive input (`syn::DeriveInput`); generics are not modelled
  // ---------------------------------------------------------------------------

  /** A field as written: its identifier (none in a tuple), attributes and type. */
  datatype FieldDef = FieldDef(ident: Option<string>, attrs: seq<Attribute>, ty: Type)

  /** `syn::Fields`. */
  datatype Fields = Named(named: seq<FieldDef>) | Unnamed(unnamed: seq<FieldDef>) | Unit

  /** An enum variant as written. */
  datatype VariantDef = VariantDef(ident: string, attrs: seq<Attribute>, fields: Fields)

  /** `syn::Data`. */
  datatype InputData = StructData(fields: Fields) | EnumData(variants: seq<VariantDef>) | UnionData

  /** The item a derive macro is applied to. */
  datatype DeriveInput = DeriveInput(ident: string, attrs: seq<Attribute>, data: InputData)

  /** A struct with named fields: the only item `default` may be put on. */
  predicate IsNamedStruct(d: InputData) {
    d.StructData? && d.fields.Named?
  }
}
