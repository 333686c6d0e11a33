/**
 * The wire codec derived for an enum whose variants are all units: a
 * variant is written as its serialize name, and a name read back selects
 * the first variant that accepts it as one of its deserialize aliases.
 */
module EnumCodec {
  import opened Wrappers
  import opened Strings
  import Utf8
  import opened Accumulators
  import opened Wire
  import opened Names
  import opened Containers

  const OnlyUnitMessage: string := "Only Enum's Unit variant is currently supported"
  const NotStringDescription: string := "Expected Redis string, got:"
  const InvalidVariantDescription: string := "Invalid enum variant:"
  const ExpectedSeparator: string := ", Expected one of: "

  /** One arm of the generated `write_redis_args` match: the variant and the tag it writes. */
  datatype Arm = Arm(ident: string, tag: string)

  /** One arm of the generated `from_redis_value` match: a tag and the variant it selects. */
  datatype Case = Case(tag: string, ident: string)

  /** The generated `ToRedisArgs` and `FromRedisValue` implementations. */
  datatype Codec = Codec(typeName: string, arms: seq<Arm>, cases: seq<Case>)

  predicate AllUnit(vs: seq<Variant>) {
    forall i :: 0 <= i < |vs| ==> vs[i].style == UnitStyle
  }

  // ---------------------------------------------------------------------------
  // Derivation
  // ---------------------------------------------------------------------------

  /**
   * The `all` check over the variants: it stops at the first variant that is
   * not a unit, after reporting it, so at most one such variant is reported.
   */
  function CheckUnits(vs: seq<Variant>, ctx: Ctx): (r: (bool, Ctx))
    ensures r.0 <==> AllUnit(vs)
    ensures r.1 == if r.0 then ctx else ctx + [OnlyUnitMessage]
    decreases |vs|
  {
    if |vs| == 0 then (true, ctx)
    else if vs[0].style != UnitStyle then (false, ctx + [OnlyUnitMessage])
    else
      var r := CheckUnits(vs[1..], ctx);
      assert forall i :: 1 <= i < |vs| ==> vs[i] == vs[1..][i - 1];
      r
  }

  /** The write arms, one per variant not skipped for serializing, in declaration order. */
  function ArmsOf(vs: seq<Variant>): (r: seq<Arm>)
    ensures |r| <= |vs|
    decreases |vs|
  {
    if |vs| == 0 then []
    else
      (if vs[0].attrs.skipSerializing then [] else [Arm(vs[0].ident, SerializeName(vs[0].attrs.name))])
      + ArmsOf(vs[1..])
  }

  /** The read arms of one variant: one per deserialize alias. */
  function VariantCases(v: Variant): (r: seq<Case>)
    ensures |r| == |DeserializeAliases(v.attrs.name)|
    ensures forall k :: 0 <= k < |r| ==> r[k] == Case(DeserializeAliases(v.attrs.name)[k], v.ident)
  {
    var tags := DeserializeAliases(v.attrs.name);
    seq(|tags|, k requires 0 <= k < |tags| => Case(tags[k], v.ident))
  }

  /** The read arms of the variants not skipped for deserializing, in declaration order. */
  function CasesOf(vs: seq<Variant>): seq<Case>
    decreases |vs|
  {
    if |vs| == 0 then []
    else (if vs[0].attrs.skipDeserializing then [] else VariantCases(vs[0])) + CasesOf(vs[1..])
  }

  /** Every tag accepted, in the order the arms try them. */
  function Tags(cases: seq<Case>): (r: seq<string>)
    ensures |r| == |cases|
    ensures forall k :: 0 <= k < |cases| ==> r[k] == cases[k].tag
  {
    seq(|cases|, k requires 0 <= k < |cases| => cases[k].tag)
  }

  /** The accepted tags as the error message lists them. */
  function Expected(c: Codec): string {
    Join(Tags(c.cases), ", ")
  }

  /**
   * `value::enum::derive`: refused, with one report, unless every variant is
   * a unit; otherwise the codec of the variants' arms.
   */
  function Derive(typeName: string, vs: seq<Variant>, ctx: Ctx): (r: (Option<Codec>, Ctx))
    ensures r.0.Some? <==> AllUnit(vs)
    ensures r.0.Some? ==> r.0.value == Codec(typeName, ArmsOf(vs), CasesOf(vs)) && r.1 == ctx
    ensures r.0.None? ==> r.1 == ctx + [OnlyUnitMessage]
  {
    var (ok, c) := CheckUnits(vs, ctx);
    if !ok then (None, c) else (Some(Codec(typeName, ArmsOf(vs), CasesOf(vs))), c)
  }

  /** A variant is written iff it is not skipped for serializing, and then under its serialize name. */
  lemma {:induction false} ArmsOfMembers(vs: seq<Variant>, a: Arm)
    ensures a in ArmsOf(vs) <==>
      exists i :: 0 <= i < |vs| && !vs[i].attrs.skipSerializing && a == Arm(vs[i].ident, SerializeName(vs[i].attrs.name))
    decreases |vs|
  {
    if |vs| > 0 {
      ArmsOfMembers(vs[1..], a);
      if a in ArmsOf(vs[1..]) {
        var i :| 0 <= i < |vs[1..]| && !vs[1..][i].attrs.skipSerializing && a == Arm(vs[1..][i].ident, SerializeName(vs[1..][i].attrs.name));
        assert vs[i + 1] == vs[1..][i];
      }
      if exists i :: 0 <= i < |vs| && !vs[i].attrs.skipSerializing && a == Arm(vs[i].ident, SerializeName(vs[i].attrs.name)) {
        var i :| 0 <= i < |vs| && !vs[i].attrs.skipSerializing && a == Arm(vs[i].ident, SerializeName(vs[i].attrs.name));
        if i > 0 {
          assert vs[1..][i - 1] == vs[i];
        }
      }
    }
  }

  /** A tag selects a variant only if the variant is read and the tag is one of its aliases. */
  lemma {:induction false} CasesOfMembers(vs: seq<Variant>, c: Case)
    ensures c in CasesOf(vs) <==>
      exists i :: 0 <= i < |vs| && !vs[i].attrs.skipDeserializing && c.ident == vs[i].ident
                  && c.tag in DeserializeAliases(vs[i].attrs.name)
    decreases |vs|
  {
    if |vs| > 0 {
      CasesOfMembers(vs[1..], c);
      var head := if vs[0].attrs.skipDeserializing then [] else VariantCases(vs[0]);
      assert CasesOf(vs) == head + CasesOf(vs[1..]);
      if c in head {
        var k :| 0 <= k < |head| && head[k] == c;
        assert c.tag == DeserializeAliases(vs[0].attrs.name)[k];
      }
      if !vs[0].attrs.skipDeserializing && c.ident == vs[0].ident && c.tag in DeserializeAliases(vs[0].attrs.name) {
        var k :| 0 <= k < |DeserializeAliases(vs[0].attrs.name)| && DeserializeAliases(vs[0].attrs.name)[k] == c.tag;
        assert head[k] == c;
      }
      if c in CasesOf(vs[1..]) {
        var i :| 0 <= i < |vs[1..]| && !vs[1..][i].attrs.skipDeserializing && c.ident == vs[1..][i].ident
                 && c.tag in DeserializeAliases(vs[1..][i].attrs.name);
        assert vs[i + 1] == vs[1..][i];
      }
      if exists i :: 0 <= i < |vs| && !vs[i].attrs.skipDeserializing && c.ident == vs[i].ident
                     && c.tag in DeserializeAliases(vs[i].attrs.name) {
        var i :| 0 <= i < |vs| && !vs[i].attrs.skipDeserializing && c.ident == vs[i].ident
                 && c.tag in DeserializeAliases(vs[i].attrs.name);
        if i > 0 {
          assert vs[1..][i - 1] == vs[i];
        }
      }
    }
  }

  // ---------------------------------------------------------------------------
  // Encoding and decoding
  // ---------------------------------------------------------------------------

  /** The tag the first arm for the variant writes, if the match has an arm for it. */
  function TagFor(arms: seq<Arm>, ident: string): (r: Option<string>)
    ensures r.Some? <==> exists i :: 0 <= i < |arms| && arms[i].ident == ident
    ensures r.Some? ==> Arm(ident, r.value) in arms
    ensures r.Some? ==> exists i :: 0 <= i < |arms| && arms[i] == Arm(ident, r.value)
                          && forall j :: 0 <= j < i ==> arms[j].ident != ident
    decreases |arms|
  {
    if |arms| == 0 then None
    else if arms[0].ident == ident then Some(arms[0].tag)
    else
      var r := TagFor(arms[1..], ident);
      assert forall i :: 1 <= i < |arms| ==> arms[i] == arms[1..][i - 1];
      if r.Some? then
        var i :| 0 <= i < |arms[1..]| && arms[1..][i] == Arm(ident, r.value)
                 && forall j :: 0 <= j < i ==> arms[1..][j].ident != ident;
        assert arms[i + 1] == Arm(ident, r.value);
        assert forall j :: 0 <= j < i + 1 ==> arms[j].ident != ident by {
          forall j | 0 <= j < i + 1 ensures arms[j].ident != ident {
            if j > 0 {
              assert arms[j] == arms[1..][j - 1];
            }
          }
        }
        r
      else r
  }

  /**
   * `write_redis_args` for a value of the variant: one argument, the tag as
   * UTF-8. `None` is a variant the generated match has no arm for (the
   * generated code then does not compile).
   */
  function Encode(c: Codec, ident: string): (r: Option<Utf8.Bytes>)
    ensures r.Some? <==> exists i :: 0 <= i < |c.arms| && c.arms[i].ident == ident
    ensures r.Some? ==> exists i :: 0 <= i < |c.arms| && c.arms[i].ident == ident
                          && r.value == Utf8.Encode(c.arms[i].tag)
                          && forall j :: 0 <= j < i ==> c.arms[j].ident != ident
  {
    match TagFor(c.arms, ident)
    case Some(tag) => Some(Utf8.Encode(tag))
    case None => None
  }

  /** The variant the first arm accepting the tag selects. */
  function IdentFor(cases: seq<Case>, tag: string): (r: Option<string>)
    ensures r.Some? <==> exists k :: 0 <= k < |cases| && cases[k].tag == tag
    ensures r.Some? ==> exists k :: 0 <= k < |cases| && cases[k] == Case(tag, r.value)
                          && forall j :: 0 <= j < k ==> cases[j].tag != tag
    decreases |cases|
  {
    if |cases| == 0 then None
    else if cases[0].tag == tag then Some(cases[0].ident)
    else
      var r := IdentFor(cases[1..], tag);
      assert forall k :: 1 <= k < |cases| ==> cases[k] == cases[1..][k - 1];
      if r.Some? then
        var k :| 0 <= k < |cases[1..]| && cases[1..][k] == Case(tag, r.value)
                 && forall j :: 0 <= j < k ==> cases[1..][j].tag != tag;
        assert cases[k + 1] == Case(tag, r.value);
        assert forall j :: 0 <= j < k + 1 ==> cases[j].tag != tag by {
          forall j | 0 <= j < k + 1 ensures cases[j].tag != tag {
            if j > 0 {
              assert cases[j] == cases[1..][j - 1];
            }
          }
        }
        r
      else r
  }

  /**
   * `from_redis_value`: only data is accepted, it must be UTF-8, and the
   * first arm whose tag it is selects the variant; any other text is refused
   * with the list of accepted tags.
   */
  function Decode(c: Codec, v: Value): (r: Result<string, RedisError>)
    ensures !v.Data? ==> r == Err(RedisError(TypeError, NotStringDescription, None))
    ensures v.Data? && Utf8.Decode(v.bytes).None? ==> r == Err(Utf8Failure)
    ensures r.Ok? ==> exists k :: 0 <= k < |c.cases| && c.cases[k].ident == r.value
    ensures r.Ok? ==> v.Data? && Utf8.Decode(v.bytes).Some?
    ensures v.Data? && Utf8.Decode(v.bytes).Some? ==>
      var s := Utf8.Decode(v.bytes).value;
      && (r.Ok? <==> exists k :: 0 <= k < |c.cases| && c.cases[k].tag == s)
      && (r.Ok? ==> exists k :: 0 <= k < |c.cases| && c.cases[k] == Case(s, r.value)
                      && forall j :: 0 <= j < k ==> c.cases[j].tag != s)
      && (r.Err? ==> r == Err(RedisError(TypeError, InvalidVariantDescription, Some(s + ExpectedSeparator + Expected(c)))))
  {
    match v
    case Data(b) =>
      (match Utf8.Decode(b)
       case None => Err(Utf8Failure)
       case Some(s) =>
         (match IdentFor(c.cases, s)
          case Some(ident) => Ok(ident)
          case None => Err(RedisError(TypeError, InvalidVariantDescription, Some(s + ExpectedSeparator + Expected(c))))))
    case _ => Err(RedisError(TypeError, NotStringDescription, None))
  }

  // ---------------------------------------------------------------------------
  // Properties
  // ---------------------------------------------------------------------------

  /** A text read back is accepted iff some arm has it as its tag; otherwise the refusal lists the tags. */
  lemma DecodeText(c: Codec, s: string)
    ensures Decode(c, Data(Utf8.Encode(s))).Ok? <==> s in Tags(c.cases)
    ensures s !in Tags(c.cases) ==>
      Decode(c, Data(Utf8.Encode(s))) == Err(RedisError(TypeError, InvalidVariantDescription, Some(s + ExpectedSeparator + Expected(c))))
  {
    Utf8.DecodeEncode(s);
    if s in Tags(c.cases) {
      var k :| 0 <= k < |Tags(c.cases)| && Tags(c.cases)[k] == s;
      assert c.cases[k].tag == s;
    }
  }

  /** Each written arm is read back: some arm accepts its tag and every arm that does selects its variant. */
  predicate RoundTrips(c: Codec) {
    forall i :: 0 <= i < |c.arms| ==>
      && (exists k :: 0 <= k < |c.cases| && c.cases[k] == Case(c.arms[i].tag, c.arms[i].ident))
      && (forall k :: 0 <= k < |c.cases| && c.cases[k].tag == c.arms[i].tag ==> c.cases[k].ident == c.arms[i].ident)
  }

  /** Under those conditions a written variant reads back as itself. */
  lemma RoundTrip(c: Codec, ident: string)
    requires RoundTrips(c)
    requires Encode(c, ident).Some?
    ensures Decode(c, Data(Encode(c, ident).value)) == Ok(ident)
  {
    var tag := TagFor(c.arms, ident).value;
    assert Encode(c, ident) == Some(Utf8.Encode(tag));
    var i :| 0 <= i < |c.arms| && c.arms[i] == Arm(ident, tag);
    var k :| 0 <= k < |c.cases| && c.cases[k] == Case(tag, ident);
    var found := IdentFor(c.cases, tag);
    assert found.Some?;
    var k' :| 0 <= k' < |c.cases| && c.cases[k'] == Case(tag, found.value);
    DecodeWritten(c, tag);
  }

  /** A written text that some case accepts decodes to the variant the first such case selects. */
  lemma DecodeWritten(c: Codec, s: string)
    requires IdentFor(c.cases, s).Some?
    ensures Decode(c, Data(Utf8.Encode(s))) == Ok(IdentFor(c.cases, s).value)
  {
    Utf8.DecodeEncode(s);
  }

  /**
   * The conditions on unit variants under which the derived codec round-trips:
   * variants are distinct, every written variant is read and under the name
   * it is written under, and no variant's aliases take another's written name.
   */
  predicate FaithfulVariants(vs: seq<Variant>) {
    && (forall i, j :: 0 <= i < j < |vs| ==> vs[i].ident != vs[j].ident)
    && (forall i :: 0 <= i < |vs| && !vs[i].attrs.skipSerializing ==>
          !vs[i].attrs.skipDeserializing && SerializeName(vs[i].attrs.name) == DeserializeName(vs[i].attrs.name))
    && (forall i, j :: 0 <= i < |vs| && 0 <= j < |vs| && i != j ==>
          SerializeName(vs[j].attrs.name) !in DeserializeAliases(vs[i].attrs.name))
  }

  lemma DerivedArmRoundTrips(vs: seq<Variant>, a: Arm)
    requires FaithfulVariants(vs)
    requires a in ArmsOf(vs)
    ensures Case(a.tag, a.ident) in CasesOf(vs)
    ensures forall x :: x in CasesOf(vs) && x.tag == a.tag ==> x.ident == a.ident
  {
    ArmsOfMembers(vs, a);
    var i :| 0 <= i < |vs| && !vs[i].attrs.skipSerializing && a == Arm(vs[i].ident, SerializeName(vs[i].attrs.name));
    CasesOfMembers(vs, Case(a.tag, a.ident));
    forall x | x in CasesOf(vs) && x.tag == a.tag
      ensures x.ident == a.ident
    {
      CasesOfMembers(vs, x);
      var j :| 0 <= j < |vs| && !vs[j].attrs.skipDeserializing && x.ident == vs[j].ident
               && x.tag in DeserializeAliases(vs[j].attrs.name);
      assert i == j;
    }
  }

  /** Under those conditions the codec derived for the enum round-trips. */
  lemma DerivedCodecRoundTrips(typeName: string, vs: seq<Variant>)
    requires FaithfulVariants(vs)
    ensures RoundTrips(Codec(typeName, ArmsOf(vs), CasesOf(vs)))
  {
    var c := Codec(typeName, ArmsOf(vs), CasesOf(vs));
    forall i | 0 <= i < |c.arms|
      ensures exists k :: 0 <= k < |c.cases| && c.cases[k] == Case(c.arms[i].tag, c.arms[i].ident)
      ensures forall k :: 0 <= k < |c.cases| && c.cases[k].tag == c.arms[i].tag ==> c.cases[k].ident == c.arms[i].ident
    {
      DerivedArmAt(c, vs, i);
    }
  }

  /** The round-trip conditions for the arm at position `i`, by index into the cases. */
  lemma DerivedArmAt(c: Codec, vs: seq<Variant>, i: nat)
    requires FaithfulVariants(vs)
    requires c.arms == ArmsOf(vs) && c.cases == CasesOf(vs) && i < |c.arms|
    ensures exists k :: 0 <= k < |c.cases| && c.cases[k] == Case(c.arms[i].tag, c.arms[i].ident)
    ensures forall k :: 0 <= k < |c.cases| && c.cases[k].tag == c.arms[i].tag ==> c.cases[k].ident == c.arms[i].ident
  {
    var a := c.arms[i];
    assert a in ArmsOf(vs);
    DerivedArmRoundTrips(vs, a);
    assert Case(a.tag, a.ident) in c.cases;
    var k :| 0 <= k < |c.cases| && c.cases[k] == Case(a.tag, a.ident);
    forall k | 0 <= k < |c.cases| && c.cases[k].tag == a.tag
      ensures c.cases[k].ident == a.ident
    {
      assert c.cases[k] in CasesOf(vs);
    }
  }

  /** A derived codec only ever reads a variant that is not skipped for deserializing. */
  lemma {:induction false} DecodedVariantIsRead(c: Codec, vs: seq<Variant>, v: Value, ident: string)
    requires c.cases == CasesOf(vs)
    requires Decode(c, v) == Ok(ident)
    ensures exists i :: 0 <= i < |vs| && !vs[i].attrs.skipDeserializing && vs[i].ident == ident
  {
    var k := SelectingCase(c, v, ident);
    var i := CaseOrigin(vs, c.cases[k]);
  }

  /** The variant an arm for a derived codec comes from. */
  lemma CaseOrigin(vs: seq<Variant>, x: Case) returns (i: nat)
    requires x in CasesOf(vs)
    ensures i < |vs| && !vs[i].attrs.skipDeserializing && vs[i].ident == x.ident
  {
    CasesOfMembers(vs, x);
    i :| 0 <= i < |vs| && !vs[i].attrs.skipDeserializing && x.ident == vs[i].ident
         && x.tag in DeserializeAliases(vs[i].attrs.name);
  }

  /** The arm behind a variant read. */
  lemma SelectingCase(c: Codec, v: Value, ident: string) returns (k: nat)
    requires Decode(c, v) == Ok(ident)
    ensures k < |c.cases| && c.cases[k].ident == ident
  {
    k :| 0 <= k < |c.cases| && c.cases[k].ident == ident;
  }

  /** A derived codec has a write arm for a variant iff the variant is not skipped for serializing. */
  lemma EncodedIffWritten(typeName: string, vs: seq<Variant>, ident: string)
    requires forall i, j :: 0 <= i < j < |vs| ==> vs[i].ident != vs[j].ident
    ensures Encode(Codec(typeName, ArmsOf(vs), CasesOf(vs)), ident).Some?
        <==> exists i :: 0 <= i < |vs| && vs[i].ident == ident && !vs[i].attrs.skipSerializing
  {
    var arms := ArmsOf(vs);
    if exists i :: 0 <= i < |vs| && vs[i].ident == ident && !vs[i].attrs.skipSerializing {
      var i :| 0 <= i < |vs| && vs[i].ident == ident && !vs[i].attrs.skipSerializing;
      ArmsOfMembers(vs, Arm(ident, SerializeName(vs[i].attrs.name)));
      var j :| 0 <= j < |arms| && arms[j] == Arm(ident, SerializeName(vs[i].attrs.name));
    }
    if Encode(Codec(typeName, arms, CasesOf(vs)), ident).Some? {
      var j :| 0 <= j < |arms| && arms[j].ident == ident;
      ArmsOfMembers(vs, arms[j]);
    }
  }

  /** When two variants accept the same tag, the one declared first wins. */
  lemma FirstAcceptingVariantWins(typeName: string, tag: string, a: string, b: string)
    ensures Decode(Codec(typeName, [], [Case(tag, a), Case(tag, b)]), Data(Utf8.Encode(tag))) == Ok(a)
  {
    Utf8.DecodeEncode(tag);
  }
}
