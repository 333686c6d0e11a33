/**
 * `TypeExt`: the questions the generators ask about a field's declared type —
 * is it an `Option`, a list collection, a number, a reference, a `Copy`
 * primitive, and what is its first generic argument. All of them look only
 * at the syntax of the type as written; nothing is resolved.
 */
module TypeExt {
  import opened Wrappers
  import opened Syntax

  /** The scalar names `is_numeric_type` accepts. */
  const NumericNames: set<string> :=
    {"i8", "i16", "i32", "i64", "i128", "isize", "u8", "u16", "u32", "u64", "u128", "usize", "f32", "f64"}

  /** The names `is_primitive_copy` accepts outright: the numbers, `bool` and `char`. */
  const CopyNames: set<string> := NumericNames + {"bool", "char"}

  /** The collection names `is_list_collection` accepts. */
  const ListNames: set<string> := {"Vec", "LinkedList", "VecDeque", "BinaryHeap", "HashSet", "BTreeSet"}

  /** `TypeExt::path`: the path of a path type. */
  function TypePath(t: Type): (r: Option<Path>)
    ensures r.Some? <==> t.PathType?
  {
    if t.PathType? then Some(t.path) else None
  }

  /** The last segment of a path type, when there is one. */
  function LastSegment(t: Type): (r: Option<Segment>)
    ensures r.Some? <==> t.PathType? && |t.path.segments| > 0
    ensures r.Some? ==> r.value == t.path.segments[|t.path.segments| - 1]
  {
    match TypePath(t)
    case None => None
    case Some(p) => if |p.segments| == 0 then None else Some(p.segments[|p.segments| - 1])
  }

  /** A segment named `name` with exactly one generic argument in angle brackets. */
  predicate HasOneAngleArg(s: Segment) {
    s.args.Angle? && |s.args.args| == 1
  }

  /** `is_option`: the last segment is `Option<_>` with exactly one argument. */
  predicate IsOption(t: Type) {
    LastSegment(t).Some? && LastSegment(t).value.ident == "Option" && HasOneAngleArg(LastSegment(t).value)
  }

  /** `is_list_collection`: the last segment is one of the six collections with exactly one argument. */
  predicate IsListCollection(t: Type) {
    LastSegment(t).Some? && LastSegment(t).value.ident in ListNames && HasOneAngleArg(LastSegment(t).value)
  }

  /** `is_numeric_type`: the last segment is a machine number, whatever its arguments. */
  predicate IsNumeric(t: Type) {
    LastSegment(t).Some? && LastSegment(t).value.ident in NumericNames
  }

  /** `is_reference`. */
  predicate IsReference(t: Type) {
    t.Reference?
  }

  /** `arguments`: the generic arguments of the last segment, when it has angle brackets. */
  function Arguments(t: Type): (r: Option<seq<GenericArg>>)
    ensures r.Some? <==> LastSegment(t).Some? && LastSegment(t).value.args.Angle?
    ensures r.Some? ==> r.value == LastSegment(t).value.args.args
  {
    match LastSegment(t)
    case None => None
    case Some(s) => if s.args.Angle? then Some(s.args.args) else None
  }

  /**
   * `get_inner_type`: the first generic argument of the FIRST segment, when
   * it is a type. For a qualified path such as `std::vec::Vec<T>` the first
   * segment is `std`, which has no arguments.
   */
  function GetInnerType(t: Type): (r: Option<Type>)
    ensures r.Some? <==>
      t.PathType? && |t.path.segments| > 0 && t.path.segments[0].args.Angle?
      && |t.path.segments[0].args.args| > 0 && t.path.segments[0].args.args[0].TypeArg?
    ensures r.Some? ==> r.value == t.path.segments[0].args.args[0].ty
  {
    match TypePath(t)
    case None => None
    case Some(p) =>
      if |p.segments| == 0 then None
      else match p.segments[0].args
        case Angle(args) => if |args| > 0 && args[0].TypeArg? then Some(args[0].ty) else None
        case _ => None
  }

  /**
   * `is_ident`: whether the type — or, for an `Option`, its inner type — is
   * a path whose last segment is `ident`. The inner type is taken with
   * `get_inner_type().unwrap()`, so an `Option` whose first segment carries
   * no type argument panics.
   */
  function IsIdent(t: Type, ident: string): (r: Result<bool, string>)
    ensures r.Err? <==> IsOption(t) && GetInnerType(t).None?
    ensures r.Err? ==> r.error == UnwrapNoneMessage
    ensures !IsOption(t) ==> r == Ok(LastSegment(t).Some? && LastSegment(t).value.ident == ident)
    ensures IsOption(t) && GetInnerType(t).Some? ==>
      r == Ok(LastSegment(GetInnerType(t).value).Some? && LastSegment(GetInnerType(t).value).value.ident == ident)
  {
    if IsOption(t) then
      match GetInnerType(t)
      case None => Err(UnwrapNoneMessage)
      case Some(inner) => Ok(match LastSegment(inner) case Some(s) => s.ident == ident case None => false)
    else Ok(match LastSegment(t) case Some(s) => s.ident == ident case None => false)
  }

  /**
   * `is_primitive_copy`: a `Copy` primitive, a shared reference, or an array,
   * group, parenthesis or tuple of such; an `Option<...>` counts when every
   * type argument counts. A bare `Option` without angle brackets does not.
   */
  predicate IsPrimitiveCopy(t: Type)
    decreases t
  {
    match t
    case Array(e) => IsPrimitiveCopy(e)
    case Group(e) => IsPrimitiveCopy(e)
    case Paren(e) => IsPrimitiveCopy(e)
    case Reference(mutable, _) => !mutable
    case Tuple(es) => forall i :: 0 <= i < |es| ==> IsPrimitiveCopy(es[i])
    case PathType(p) =>
      if |p.segments| == 0 then false
      else
        var last := p.segments[|p.segments| - 1];
        if last.ident in CopyNames then true
        else if last.ident == "Option" && last.args.Angle? then
          forall i :: 0 <= i < |last.args.args| && last.args.args[i].TypeArg? ==> IsPrimitiveCopy(last.args.args[i].ty)
        else false
    case OtherType => false
  }

  /**
   * `to_as_ref`: for a type whose last segment is `Option<args>`, the tokens
   * `Option<&args>` — the path prefix is dropped, and the `&` lands before
   * the first argument only.
   */
  function ToAsRef(t: Type): (r: Option<Type>)
    ensures r.Some? <==> LastSegment(t).Some? && LastSegment(t).value.ident == "Option" && LastSegment(t).value.args.Angle?
    ensures r.Some? ==> var args := LastSegment(t).value.args.args;
      && r.value.PathType? && r.value.path == Path(false, [Segment("Option", Angle(BorrowFirst(args)))])
  {
    match LastSegment(t)
    case None => None
    case Some(s) =>
      if s.ident == "Option" && s.args.Angle? then
        Some(PathType(Path(false, [Segment("Option", Angle(BorrowFirst(s.args.args)))])))
      else None
  }

  /**
   * The arguments with a shared `&` put before the first one when it is a
   * type. The `quote!` puts the `&` token before whatever comes first; in
   * front of a lifetime, a const argument or nothing that is no type, and
   * those argument lists are modelled as left unchanged.
   */
  function BorrowFirst(args: seq<GenericArg>): (r: seq<GenericArg>)
    ensures |r| == |args| && (|args| > 0 ==> r[1..] == args[1..])
    ensures |args| > 0 && args[0].TypeArg? ==> r[0] == TypeArg(Reference(false, args[0].ty))
  {
    if |args| > 0 && args[0].TypeArg? then [TypeArg(Reference(false, args[0].ty))] + args[1..] else args
  }

  // ---------------------------------------------------------------------------
  // Properties
  // ---------------------------------------------------------------------------

  /** The single-segment type `name<args>` (or `name` without arguments). */
  function Simple(name: string, args: PathArgs): Type {
    PathType(Path(false, [Segment(name, args)]))
  }

  /** Every number is a `Copy` primitive. */
  lemma NumericIsPrimitiveCopy(t: Type)
    requires IsNumeric(t)
    ensures IsPrimitiveCopy(t)
  {
  }

  /** The classes are disjoint: an `Option` is neither a list collection nor a number. */
  lemma ClassesDisjoint(t: Type)
    ensures !(IsOption(t) && IsListCollection(t))
    ensures !(IsOption(t) && IsNumeric(t))
    ensures !(IsListCollection(t) && IsNumeric(t))
  {
  }

  /** A borrowed `Option<T>` of a single-segment type is `Option<&T>`, itself an `Option`. */
  lemma ToAsRefOfOption(inner: Type)
    ensures ToAsRef(Simple("Option", Angle([TypeArg(inner)]))) == Some(Simple("Option", Angle([TypeArg(Reference(false, inner))])))
    ensures IsOption(ToAsRef(Simple("Option", Angle([TypeArg(inner)]))).value)
  {
    var args := [TypeArg(inner)];
    var t := Simple("Option", Angle(args));
    assert LastSegment(t) == Some(Segment("Option", Angle(args)));
    assert BorrowFirst(args) == [TypeArg(Reference(false, inner))] + args[1..];
    assert BorrowFirst(args) == [TypeArg(Reference(false, inner))];
  }

  /**
   * For a single-segment `Option<T>`, `is_ident` looks through the `Option`
   * and answers for `T`'s last segment, without panicking.
   */
  lemma IsIdentLooksThroughOption(inner: Type, ident: string)
    ensures IsIdent(Simple("Option", Angle([TypeArg(inner)])), ident)
         == Ok(LastSegment(inner).Some? && LastSegment(inner).value.ident == ident)
  {
  }

  /** `Vec<String>` and `HashSet<u32>` are list collections; `i32` and `usize` are numbers. */
  lemma ClassifierExamples()
    ensures IsListCollection(Simple("Vec", Angle([TypeArg(Simple("String", NoArgs))])))
    ensures IsListCollection(Simple("HashSet", Angle([TypeArg(Simple("u32", NoArgs))])))
    ensures IsNumeric(Simple("i32", NoArgs)) && IsNumeric(Simple("usize", NoArgs))
    ensures !IsListCollection(Simple("Vec", NoArgs))
  {
  }

  /** The inner type of `Vec<u32>` is `u32`, and of `HashSet<String>` is `String`. */
  lemma InnerTypeExamples()
    ensures GetInnerType(Simple("Vec", Angle([TypeArg(Simple("u32", NoArgs))]))) == Some(Simple("u32", NoArgs))
    ensures IsIdent(Simple("u32", NoArgs), "u32") == Ok(true)
    ensures GetInnerType(Simple("HashSet", Angle([TypeArg(Simple("String", NoArgs))]))) == Some(Simple("String", NoArgs))
    ensures IsIdent(Simple("String", NoArgs), "String") == Ok(true)
  {
  }

  /** `std::space::Name<inner>`: a path whose first segment is `std`. */
  function QualifiedPath(space: string, name: string, inner: Type): Type {
    PathType(Path(false, [Segment("std", NoArgs), Segment(space, NoArgs), Segment(name, Angle([TypeArg(inner)]))]))
  }

  /** `std::option::Option<inner>`. */
  function QualifiedOption(inner: Type): Type {
    QualifiedPath("option", "Option", inner)
  }

  /**
   * As written, `is_ident` panics on a fully qualified `Option`: `is_option`
   * reads the last segment but `get_inner_type` the first.
   */
  lemma QualifiedOptionPanics(inner: Type, ident: string)
    ensures IsOption(QualifiedOption(inner))
    ensures IsIdent(QualifiedOption(inner), ident) == Err(UnwrapNoneMessage)
  {
  }

  /**
   * The inner type read from the segment `is_option` and `is_list_collection`
   * inspect: the first argument of the LAST segment, when it is a type.
   */
  function LastInnerType(t: Type): (r: Option<Type>)
    ensures r.Some? <==>
      LastSegment(t).Some? && LastSegment(t).value.args.Angle? && |LastSegment(t).value.args.args| > 0
      && LastSegment(t).value.args.args[0].TypeArg?
    ensures r.Some? ==> r.value == LastSegment(t).value.args.args[0].ty
  {
    match LastSegment(t)
    case None => None
    case Some(s) =>
      if s.args.Angle? && |s.args.args| > 0 && s.args.args[0].TypeArg? then Some(s.args.args[0].ty) else None
  }

  /** On a path of one segment the corrected reading is `get_inner_type`. */
  lemma LastInnerTypeAgrees(t: Type)
    requires t.PathType? && |t.path.segments| == 1
    ensures LastInnerType(t) == GetInnerType(t)
  {
  }

  /**
   * With the corrected reading, every list of a type has an inner type,
   * however its path is qualified, so the `expect` on it cannot fire.
   */
  lemma ListInnerTypeExists(t: Type)
    requires IsListCollection(t) && LastSegment(t).value.args.args[0].TypeArg?
    ensures LastInnerType(t) == Some(LastSegment(t).value.args.args[0].ty)
  {
  }

  /** As written, the qualified list `std::vec::Vec<T>` has no inner type. */
  lemma QualifiedListHasNoInnerType(inner: Type)
    ensures IsListCollection(QualifiedPath("vec", "Vec", inner))
    ensures GetInnerType(QualifiedPath("vec", "Vec", inner)).None?
    ensures LastInnerType(QualifiedPath("vec", "Vec", inner)) == Some(inner)
  {
  }

  /**
   * `is_ident` reading the inner type from the same segment `is_option`
   * checked: no `Option<T>` makes it panic, however its path is qualified.
   */
  function IsIdentCorrected(t: Type, ident: string): (r: Result<bool, string>)
    ensures r.Err? <==> IsOption(t) && !LastSegment(t).value.args.args[0].TypeArg?
  {
    if IsOption(t) then
      match LastInnerType(t)
      case None => Err(UnwrapNoneMessage)
      case Some(inner) => Ok(match LastSegment(inner) case Some(s) => s.ident == ident case None => false)
    else Ok(match LastSegment(t) case Some(s) => s.ident == ident case None => false)
  }

  /** The corrected reading agrees with the original on every single-segment type and fixes qualified ones. */
  lemma IsIdentCorrectedAgrees(t: Type, ident: string, inner: Type)
    ensures t.PathType? && |t.path.segments| == 1 ==> IsIdentCorrected(t, ident) == IsIdent(t, ident)
    ensures IsIdentCorrected(QualifiedOption(inner), ident)
         == Ok(LastSegment(inner).Some? && LastSegment(inner).value.ident == ident)
  {
  }
}
