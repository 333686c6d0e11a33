/**
 * The older `DeriveRedisValue` implementations, keyed by the string map of
 * `util::parse::attributes` instead of a parsed container: a struct's
 * fields are written under their `rename` or their identifier in the
 * container's `rename_all` convention, with no skipping and no aliases; a
 * unit enum's variants are written as their identifier in that convention.
 * The wire formats are those of the newer codecs, so the model reuses them.
 */
module LegacyValue {
  import opened Wrappers
  import opened Strings
  import Utf8
  import opened Wire
  import opened Syntax
  import opened AttributeMaps
  import opened Casing
  import StructCodec
  import EnumCodec

  const LegacyNotBulkMessage: string :=
    "the data returned is not in the bulk data format or the length is not devisable by two"
  const OnlyUnitVariantsMessage: string := "Only Enums without fields are supported"

  /** `attrs.get("rename_all")` on the container's map. */
  function RenameAll(attrs: AttributeMap): (r: Option<string>)
    ensures r.Some? <==> "rename_all" in attrs
    ensures r.Some? ==> r.value == attrs["rename_all"]
  {
    if "rename_all" in attrs then Some(attrs["rename_all"]) else None
  }

  /** A field of the generated code: its identifier and the name it is written under. */
  datatype Wired = Wired(ident: string, wire: string)

  /** Whether some `name = value` item of the field's attributes is `rename`. */
  predicate GivesRename(attrs: seq<Attribute>)
    requires AllReadable(attrs)
  {
    exists i :: 0 <= i < |Pairs(attrs)| && Pairs(attrs)[i].0 == "rename"
  }

  // ---------------------------------------------------------------------------
  // Structs
  // ---------------------------------------------------------------------------

  /**
   * The closure over a named field: unwrap the identifier, read the field's
   * attributes, and take its `rename` if given, else its identifier in the
   * container's convention (only then is the convention consulted).
   */
  function NamedWire(heck: Heck, f: FieldDef, casing: Option<string>): (r: Result<Wired, string>)
    ensures f.ident.None? ==> r == Err(UnwrapNoneMessage)
    ensures r.Ok? <==>
      f.ident.Some? && AllReadable(f.attrs)
      && (GivesRename(f.attrs) || casing.None? || casing.value in SupportedCasings)
    ensures r.Ok? ==> r.value.ident == f.ident.value
  {
    match f.ident
    case None => Err(UnwrapNoneMessage)
    case Some(ident) =>
      match Attributes(f.attrs)
      case Err(e) => Err(e)
      case Ok(m) =>
        OverrideLookup(map[], Pairs(f.attrs), "rename");
        if "rename" in m then Ok(Wired(ident, m["rename"]))
        else match TransformCasing(heck, ident, casing)
          case Err(e) => Err(e)
          case Ok(w) => Ok(Wired(ident, w))
  }

  /** The closure over an unnamed field: unwrap its identifier, and write it under its position. */
  function UnnamedWire(f: FieldDef, index: nat): (r: Result<Wired, string>)
    ensures r.Ok? <==> f.ident.Some?
    ensures r.Err? ==> r.error == UnwrapNoneMessage
    ensures r.Ok? ==> r.value.ident == f.ident.value && AllDigits(r.value.wire)
  {
    match f.ident
    case None => Err(UnwrapNoneMessage)
    case Some(ident) => Ok(Wired(ident, NatToString(index)))
  }

  /** The map over the named fields, collected in order; the first panic ends it. */
  function NamedWires(heck: Heck, fs: seq<FieldDef>, casing: Option<string>): (r: Result<seq<Wired>, string>)
    ensures r.Ok? <==> forall i :: 0 <= i < |fs| ==> NamedWire(heck, fs[i], casing).Ok?
    ensures r.Ok? ==> |r.value| == |fs| && forall i :: 0 <= i < |fs| ==> r.value[i] == NamedWire(heck, fs[i], casing).value
    decreases |fs|
  {
    if |fs| == 0 then Ok([])
    else
      var first := NamedWire(heck, fs[0], casing);
      var rest := NamedWires(heck, fs[1..], casing);
      assert forall i :: 1 <= i < |fs| ==> fs[i] == fs[1..][i - 1];
      if first.Err? then Err(first.error)
      else if rest.Err? then Err(rest.error)
      else Ok([first.value] + rest.value)
  }

  /** The map over the unnamed fields from position `from`; the first panic ends it. */
  function UnnamedWires(fs: seq<FieldDef>, from: nat): (r: Result<seq<Wired>, string>)
    requires from <= |fs|
    ensures r.Ok? <==> forall i :: from <= i < |fs| ==> fs[i].ident.Some?
    ensures r.Err? ==> r.error == UnwrapNoneMessage
    ensures r.Ok? ==> |r.value| == |fs| - from
    ensures r.Ok? ==> forall i :: from <= i < |fs| ==> r.value[i - from] == Wired(fs[i].ident.value, NatToString(i))
    decreases |fs| - from
  {
    if from == |fs| then Ok([])
    else
      match UnnamedWire(fs[from], from)
      case Err(e) => Err(e)
      case Ok(w) =>
        match UnnamedWires(fs, from + 1)
        case Err(e) => Err(e)
        case Ok(ws) => Ok([w] + ws)
  }

  /** The generated codec: each field written under its wire name and looked up under that name only. */
  function CodecOf(typeName: string, ws: seq<Wired>): (c: StructCodec.Codec)
    ensures c.typeName == typeName && |c.serialized| == |ws| && |c.deserialized| == |ws|
    ensures forall i :: 0 <= i < |ws| ==> c.serialized[i] == StructCodec.Write(ws[i].ident, ws[i].wire)
    ensures forall i :: 0 <= i < |ws| ==> c.deserialized[i] == StructCodec.Read(ws[i].ident, [ws[i].wire])
  {
    StructCodec.Codec(
      typeName,
      seq(|ws|, i requires 0 <= i < |ws| => StructCodec.Write(ws[i].ident, ws[i].wire)),
      seq(|ws|, i requires 0 <= i < |ws| => StructCodec.Read(ws[i].ident, [ws[i].wire])))
  }

  /** The generated implementations of a struct: nothing for a unit struct, else a codec of pairs. */
  datatype StructImpl = UnitImpl | PairsImpl(codec: StructCodec.Codec)

  /**
   * `DataStruct::derive_redis_value`: a unit struct gets the empty
   * implementations; otherwise every field gets a wire name, and any panic on
   * the way is the macro's.
   */
  function DeriveStruct(heck: Heck, typeName: string, fields: Fields, attrs: AttributeMap): (r: Result<StructImpl, string>)
    ensures fields.Unit? ==> r == Ok(UnitImpl)
    ensures r.Ok? && !fields.Unit? ==> r.value.PairsImpl? && r.value.codec.typeName == typeName
    ensures fields.Named? ==>
      (r.Ok? <==> forall i :: 0 <= i < |fields.named| ==> NamedWire(heck, fields.named[i], RenameAll(attrs)).Ok?)
    ensures fields.Named? && r.Ok? ==>
      var c := r.value.codec;
      && |c.serialized| == |fields.named| && |c.deserialized| == |fields.named|
      && forall i :: 0 <= i < |fields.named| ==>
           var w := NamedWire(heck, fields.named[i], RenameAll(attrs)).value;
           c.serialized[i] == StructCodec.Write(fields.named[i].ident.value, w.wire)
           && c.deserialized[i] == StructCodec.Read(fields.named[i].ident.value, [w.wire])
    ensures fields.Unnamed? ==> (r.Ok? <==> forall i :: 0 <= i < |fields.unnamed| ==> fields.unnamed[i].ident.Some?)
    ensures fields.Unnamed? && r.Err? ==> r.error == UnwrapNoneMessage
    ensures fields.Unnamed? && r.Ok? ==>
      |r.value.codec.serialized| == |fields.unnamed|
      && forall i :: 0 <= i < |fields.unnamed| ==> r.value.codec.serialized[i].key == NatToString(i)
  {
    match fields
    case Unit => Ok(UnitImpl)
    case Named(fs) =>
      (match NamedWires(heck, fs, RenameAll(attrs))
       case Ok(ws) => Ok(PairsImpl(CodecOf(typeName, ws)))
       case Err(e) => Err(e))
    case Unnamed(fs) =>
      (match UnnamedWires(fs, 0)
       case Ok(ws) => Ok(PairsImpl(CodecOf(typeName, ws)))
       case Err(e) => Err(e))
  }

  predicate Covers(s: StructImpl, rec: map<string, seq<Utf8.Bytes>>) {
    s.PairsImpl? ==> StructCodec.Covers(s.codec.serialized, rec)
  }

  /** `write_redis_args`: nothing for a unit struct, else every field's pairs in order. */
  function Encode(s: StructImpl, rec: map<string, seq<Utf8.Bytes>>): (r: seq<Utf8.Bytes>)
    requires Covers(s, rec)
    ensures s.UnitImpl? ==> r == []
    ensures |r| % 2 == 0
  {
    match s
    case UnitImpl => []
    case PairsImpl(c) => StructCodec.Encode(c, rec)
  }

  /**
   * `from_redis_value`: a unit struct accepts anything; otherwise the reply
   * must be a bulk of pairs, grouped as the newer codec groups them.
   */
  function Decode(s: StructImpl, v: Value): (r: Result<seq<Value>, RedisError>)
    ensures s.UnitImpl? ==> r == Ok([])
    ensures s.PairsImpl? && (!v.Bulk? || |v.items| % 2 != 0) ==> r == Err(RedisError(TypeError, LegacyNotBulkMessage, None))
    ensures s.PairsImpl? && r.Ok? ==> |r.value| == |s.codec.deserialized|
  {
    match s
    case UnitImpl => Ok([])
    case PairsImpl(c) =>
      if !v.Bulk? || |v.items| % 2 != 0 then Err(RedisError(TypeError, LegacyNotBulkMessage, None))
      else StructCodec.Decode(c, v)
  }

  // ---------------------------------------------------------------------------
  // Struct properties
  // ---------------------------------------------------------------------------

  /**
   * The wire name of a named field: the value of its last `rename` item if
   * it has one; otherwise its identifier in the container's convention, and
   * the identifier itself when the container gives none.
   */
  lemma {:induction false} NamedWireRule(heck: Heck, f: FieldDef, casing: Option<string>)
    requires NamedWire(heck, f, casing).Ok?
    ensures var w := NamedWire(heck, f, casing).value.wire;
      && (forall i :: 0 <= i < |Pairs(f.attrs)| && Pairs(f.attrs)[i].0 == "rename"
                      && (forall j :: i < j < |Pairs(f.attrs)| ==> Pairs(f.attrs)[j].0 != "rename") ==>
            w == Pairs(f.attrs)[i].1)
      && (!GivesRename(f.attrs) ==> w == TransformCasing(heck, f.ident.value, casing).value)
      && (!GivesRename(f.attrs) && casing.None? ==> w == f.ident.value)
  {
    OverrideLookup(map[], Pairs(f.attrs), "rename");
  }

  /** `syn` gives unnamed fields no identifier, so a legacy tuple struct with a field always panics. */
  lemma TupleStructPanics(heck: Heck, typeName: string, fs: seq<FieldDef>, attrs: AttributeMap)
    requires |fs| > 0 && fs[0].ident.None?
    ensures DeriveStruct(heck, typeName, Unnamed(fs), attrs) == Err(UnwrapNoneMessage)
  {
  }

  /** A legacy struct decodes each field from the value under its wire name, or `Nil`. */
  lemma DecodeByWireName(typeName: string, ws: seq<Wired>, v: Value, k: nat)
    requires Decode(PairsImpl(CodecOf(typeName, ws)), v).Ok? && k < |ws|
    ensures v.Bulk? && |v.items| % 2 == 0 && StructCodec.FoldPairs(map[], v.items).Ok?
    ensures var fm := StructCodec.FoldPairs(map[], v.items).value;
      Decode(PairsImpl(CodecOf(typeName, ws)), v).value[k] == if ws[k].wire in fm then fm[ws[k].wire] else Nil
  {
  }

  /** The conditions under which a legacy struct reads back what it writes: plain, distinct names for distinct fields. */
  predicate FaithfulWires(ws: seq<Wired>) {
    && (forall i :: 0 <= i < |ws| ==> '.' !in ws[i].wire)
    && (forall i, j :: 0 <= i < j < |ws| ==> ws[i].wire != ws[j].wire && ws[i].ident != ws[j].ident)
  }

  lemma CodecOfRoundTrips(typeName: string, ws: seq<Wired>)
    requires FaithfulWires(ws)
    ensures StructCodec.RoundTrips(CodecOf(typeName, ws))
  {
    var c := CodecOf(typeName, ws);
    forall r | 0 <= r < |c.deserialized|
      ensures StructCodec.HasCounterpart(c, r)
    {
      assert c.serialized[r].key in c.deserialized[r].possibleKeys;
    }
  }

  /** Under those conditions every field reads back the value its arguments stand for. */
  lemma RoundTrip(typeName: string, ws: seq<Wired>, rec: map<string, seq<Utf8.Bytes>>)
    requires FaithfulWires(ws)
    requires Covers(PairsImpl(CodecOf(typeName, ws)), rec)
    ensures forall k :: 0 <= k < |ws| ==> ws[k].ident in rec
    ensures var c := CodecOf(typeName, ws);
      Decode(PairsImpl(c), Reply(Encode(PairsImpl(c), rec))) == Ok(StructCodec.ReceivedAll(c, rec))
  {
    var c := CodecOf(typeName, ws);
    CodecOfRoundTrips(typeName, ws);
    StructCodec.RoundTrip(c, rec);
  }

  // ---------------------------------------------------------------------------
  // Enums
  // ---------------------------------------------------------------------------

  /** The tags of the variants, each its identifier in the convention; the first panic ends it. */
  function VariantTags(heck: Heck, vs: seq<VariantDef>, casing: Option<string>): (r: Result<seq<string>, string>)
    ensures r.Ok? <==> |vs| == 0 || casing.None? || casing.value in SupportedCasings
    ensures r.Err? ==> r.error == InvalidCasingMessage
    ensures r.Ok? ==> |r.value| == |vs| && forall i :: 0 <= i < |vs| ==> r.value[i] == TransformCasing(heck, vs[i].ident, casing).value
    decreases |vs|
  {
    if |vs| == 0 then Ok([])
    else
      assert forall i :: 1 <= i < |vs| ==> vs[i] == vs[1..][i - 1];
      match TransformCasing(heck, vs[0].ident, casing)
      case Err(e) => Err(e)
      case Ok(t) =>
        match VariantTags(heck, vs[1..], casing)
        case Err(e) => Err(e)
        case Ok(ts) => Ok([t] + ts)
  }

  predicate AllUnit(vs: seq<VariantDef>) {
    forall i :: 0 <= i < |vs| ==> vs[i].fields.Unit?
  }

  /**
   * `DataEnum::derive_redis_value`: a variant with fields panics; otherwise
   * each variant writes its tag and the tag reads back as the variant.
   */
  function DeriveEnum(heck: Heck, typeName: string, vs: seq<VariantDef>, attrs: AttributeMap): (r: Result<EnumCodec.Codec, string>)
    ensures !AllUnit(vs) ==> r == Err(OnlyUnitVariantsMessage)
    ensures r.Ok? <==> AllUnit(vs) && VariantTags(heck, vs, RenameAll(attrs)).Ok?
    ensures r.Ok? ==>
      var tags := VariantTags(heck, vs, RenameAll(attrs)).value;
      && r.value.typeName == typeName && |r.value.arms| == |vs| && |r.value.cases| == |vs|
      && (forall i :: 0 <= i < |vs| ==> r.value.arms[i] == EnumCodec.Arm(vs[i].ident, tags[i]))
      && (forall i :: 0 <= i < |vs| ==> r.value.cases[i] == EnumCodec.Case(tags[i], vs[i].ident))
  {
    if !AllUnit(vs) then Err(OnlyUnitVariantsMessage)
    else match VariantTags(heck, vs, RenameAll(attrs))
      case Err(e) => Err(e)
      case Ok(tags) =>
        Ok(EnumCodec.Codec(
          typeName,
          seq(|vs|, i requires 0 <= i < |vs| => EnumCodec.Arm(vs[i].ident, tags[i])),
          seq(|vs|, i requires 0 <= i < |vs| => EnumCodec.Case(tags[i], vs[i].ident))))
  }

  // ---------------------------------------------------------------------------
  // Enum properties
  // ---------------------------------------------------------------------------

  /** The variants of a Rust enum have distinct identifiers; the tags must be distinct too. */
  predicate DistinctTags(vs: seq<VariantDef>, tags: seq<string>)
    requires |tags| == |vs|
  {
    forall i, j :: 0 <= i < j < |vs| ==> vs[i].ident != vs[j].ident && tags[i] != tags[j]
  }

  /** A variant writes exactly its tag, and with distinct tags reads back as itself. */
  lemma EnumRoundTrip(heck: Heck, typeName: string, vs: seq<VariantDef>, attrs: AttributeMap, k: nat)
    requires DeriveEnum(heck, typeName, vs, attrs).Ok? && k < |vs|
    requires DistinctTags(vs, VariantTags(heck, vs, RenameAll(attrs)).value)
    ensures var c := DeriveEnum(heck, typeName, vs, attrs).value;
      && EnumCodec.Encode(c, vs[k].ident) == Some(Utf8.Encode(VariantTags(heck, vs, RenameAll(attrs)).value[k]))
      && EnumCodec.Decode(c, Data(EnumCodec.Encode(c, vs[k].ident).value)) == Ok(vs[k].ident)
  {
    var c := DeriveEnum(heck, typeName, vs, attrs).value;
    var tags := VariantTags(heck, vs, RenameAll(attrs)).value;
    TagForFirst(c.arms, k);
    forall i | 0 <= i < |c.arms|
      ensures exists x :: 0 <= x < |c.cases| && c.cases[x] == EnumCodec.Case(c.arms[i].tag, c.arms[i].ident)
      ensures forall x :: 0 <= x < |c.cases| && c.cases[x].tag == c.arms[i].tag ==> c.cases[x].ident == c.arms[i].ident
    {
      assert c.cases[i] == EnumCodec.Case(c.arms[i].tag, c.arms[i].ident);
    }
    EnumCodec.RoundTrip(c, vs[k].ident);
  }

  /** With distinct identifiers the arm found for a variant is its own. */
  lemma {:induction false} TagForFirst(arms: seq<EnumCodec.Arm>, k: nat)
    requires k < |arms|
    requires forall i, j :: 0 <= i < j < |arms| ==> arms[i].ident != arms[j].ident
    ensures EnumCodec.TagFor(arms, arms[k].ident) == Some(arms[k].tag)
    decreases k
  {
    if k > 0 {
      assert arms[1..][k - 1] == arms[k];
      TagForFirst(arms[1..], k - 1);
    }
  }

  /** Any other text is refused with the tags, in declaration order, listed. */
  lemma EnumRefusal(heck: Heck, typeName: string, vs: seq<VariantDef>, attrs: AttributeMap, s: string)
    requires DeriveEnum(heck, typeName, vs, attrs).Ok?
    requires s !in VariantTags(heck, vs, RenameAll(attrs)).value
    ensures EnumCodec.Decode(DeriveEnum(heck, typeName, vs, attrs).value, Data(Utf8.Encode(s)))
      == Err(RedisError(TypeError, EnumCodec.InvalidVariantDescription,
                        Some(s + EnumCodec.ExpectedSeparator + Join(VariantTags(heck, vs, RenameAll(attrs)).value, ", "))))
  {
    var c := DeriveEnum(heck, typeName, vs, attrs).value;
    assert EnumCodec.Tags(c.cases) == VariantTags(heck, vs, RenameAll(attrs)).value;
    EnumCodec.DecodeText(c, s);
  }

  /** Under `rename_all = "lowercase"` no tag holds an upper-case ASCII letter. */
  lemma LowercaseTags(heck: Heck, typeName: string, vs: seq<VariantDef>, attrs: AttributeMap)
    requires DeriveEnum(heck, typeName, vs, attrs).Ok?
    requires RenameAll(attrs) == Some("lowercase")
    ensures forall i, j :: 0 <= i < |vs| && 0 <= j < |DeriveEnum(heck, typeName, vs, attrs).value.arms[i].tag| ==>
      !IsAsciiUpper(DeriveEnum(heck, typeName, vs, attrs).value.arms[i].tag[j])
  {
  }
}
