/**
 * The structs the repository's tests describe — their schemas and their
 * `RedisModel` implementations — and what a qualified list type does to the
 * schema generators.
 */
module Golden {
  import opened Wrappers
  import opened Strings
  import opened Syntax
  import opened Names
  import opened NameItems
  import opened Collaborators
  import opened TypeExt
  import opened Containers
  import opened Schema
  import FieldAttrs
  import ContainerAttrs
  import RedisModels

  /** A named field with no renaming and the given flags. */
  function Plain(ident: string, index: nat, primaryKey: bool, indexed: bool, sortable: bool, fts: bool, ty: Type): Field {
    Field(Some(ident), index,
          FieldAttrs.FieldAttr(Name(ident, false, ident, false, []), NoDefault, primaryKey, indexed, sortable, fts, false, false, false),
          ty)
  }

  /** A named-field struct with default container attributes. */
  function Struct(ident: string, fields: seq<Field>): Container {
    Container(ident, StructFields(StructStyle, fields),
              ContainerAttrs.ContainerAttr(ident, "id", NoDefault, NoRules, HashModel, false))
  }

  const StringType: Type := Simple("String", NoArgs)
  const OptionString: Type := Simple("Option", Angle([TypeArg(StringType)]))

  /** The pieces laid end to end, as the tests spell out a long string line by line. */
  function Concat(pieces: seq<string>): string
    decreases |pieces|
  {
    if |pieces| == 0 then "" else pieces[0] + Concat(pieces[1..])
  }

  /** Whether each piece is its clause followed by the separator, the last one without. */
  predicate PiecesOf(cs: seq<string>, sep: string, ps: seq<string>) {
    && |cs| == |ps| >= 1
    && (forall i :: 0 <= i < |cs| - 1 ==> ps[i] == cs[i] + sep)
    && ps[|ps| - 1] == cs[|cs| - 1]
  }

  /** Joining clauses is laying out each clause with its separator, the last one without. */
  lemma {:induction false} JoinAsPieces(cs: seq<string>, sep: string, ps: seq<string>)
    requires PiecesOf(cs, sep, ps)
    ensures Join(cs, sep) == Concat(ps)
    decreases |cs|
  {
    if |cs| == 1 {
      assert Concat(ps) == ps[0] + "";
      assert ps[0] + "" == ps[0];
    } else {
      JoinAsPieces(cs[1..], sep, ps[1..]);
      assert Join(cs, sep) == cs[0] + sep + Join(cs[1..], sep);
      assert Concat(ps) == ps[0] + Concat(ps[1..]);
    }
  }

  lemma ConcatCons(head: string, ps: seq<string>)
    ensures Concat([head] + ps) == head + Concat(ps)
  {
    assert ([head] + ps)[1..] == ps;
  }

  /** Concatenated non-empty pieces start with the first piece's first character and end with the last's last. */
  lemma {:induction false} ConcatEnds(ps: seq<string>)
    requires |ps| > 0 && forall i :: 0 <= i < |ps| ==> |ps[i]| > 0
    ensures var c := Concat(ps); |c| > 0 && c[0] == ps[0][0] && c[|c| - 1] == ps[|ps| - 1][|ps[|ps| - 1]| - 1]
    decreases |ps|
  {
    if |ps| == 1 {
      assert Concat(ps) == ps[0] + "";
    } else {
      ConcatEnds(ps[1..]);
      assert Concat(ps) == ps[0] + Concat(ps[1..]);
    }
  }

  /** Trimming a text that neither starts nor ends with whitespace, plus one space, gives the text. */
  lemma TrimOneSpace(x: string)
    requires |x| > 0 && !IsWhitespace(x[0]) && !IsWhitespace(x[|x| - 1])
    ensures Trim(x + " ") == x
  {
    var s := x + " ";
    assert s[0] == x[0];
    assert TrimStart(s) == s;
    assert s[..|s| - 1] == x;
    assert TrimEnd(x) == x;
    assert TrimEnd(s) == x;
  }

  /** The clauses of fields whose every clause is known. */
  lemma ClausesOf(d: Dialect, m: string, fs: seq<Field>, cs: seq<string>)
    requires |fs| == |cs|
    requires forall i :: 0 <= i < |fs| ==> SchemaForField(d, m, fs[i]) == Ok(cs[i])
    ensures FieldClauses(d, m, fs) == Ok(cs)
  {
    assert FieldClauses(d, m, fs).value == cs;
  }

  /** The search schema of clauses laid out as pieces after the header. */
  lemma SearchTextAsPieces(prefix: string, cs: seq<string>, ps: seq<string>)
    requires |ps| >= 2 && PiecesOf(cs, " ", ps[1..]) && ps[0] == "ON HASH PREFIX 1" + " " + prefix + " SCHEMA "
    ensures SearchSchemaText(prefix, cs) == Concat(ps)
  {
    JoinAsPieces(cs, " ", ps[1..]);
    ConcatCons(ps[0], ps[1..]);
    assert [ps[0]] + ps[1..] == ps;
  }

  /**
   * The JSON schema of clauses whose last is empty: the join ends in a
   * separator, which the trim removes.
   */
  lemma JsonTextAsPieces(prefix: string, cs: seq<string>, ps: seq<string>)
    requires |cs| >= 2 && cs[|cs| - 1] == ""
    requires |ps| >= 2 && PiecesOf(cs[..|cs| - 1], " ", ps[1..]) && ps[0] == "ON JSON PREFIX 1 " + prefix + " SCHEMA "
    requires forall i :: 1 <= i < |ps| ==> |ps[i]| > 0
    requires !IsWhitespace(ps[1][0]) && !IsWhitespace(ps[|ps| - 1][|ps[|ps| - 1]| - 1])
    ensures JsonSchemaText(prefix, cs) == Concat(ps)
  {
    TrimmedJoinAsPieces(cs, ps[1..]);
    ConcatCons(ps[0], ps[1..]);
    assert [ps[0]] + ps[1..] == ps;
  }

  lemma TrimmedJoinAsPieces(cs: seq<string>, ps: seq<string>)
    requires |cs| >= 2 && cs[|cs| - 1] == ""
    requires PiecesOf(cs[..|cs| - 1], " ", ps)
    requires forall i :: 0 <= i < |ps| ==> |ps[i]| > 0
    requires !IsWhitespace(ps[0][0]) && !IsWhitespace(ps[|ps| - 1][|ps[|ps| - 1]| - 1])
    ensures Trim(Join(cs, " ")) == Concat(ps)
  {
    var front := cs[..|cs| - 1];
    assert cs == front + [""];
    JoinSnoc(front, "", " ");
    JoinAsPieces(front, " ", ps);
    var body := Concat(ps);
    assert Join(cs, " ") == body + " ";
    ConcatEnds(ps);
    TrimOneSpace(body);
  }

  // The clause of each kind of field the tests use.

  lemma StringTypeFacts()
    ensures LastSegment(StringType) == Some(Segment("String", NoArgs))
    ensures !IsListCollection(StringType) && !IsNumeric(StringType) && !IsOption(StringType)
    ensures IsIdent(StringType, "String") == Ok(true)
    ensures IsIdent(OptionString, "String") == Ok(true)
    ensures !IsListCollection(OptionString) && !IsNumeric(OptionString)
  {
    assert LastSegment(OptionString) == Some(Segment("Option", Angle([TypeArg(StringType)])));
    assert GetInnerType(OptionString) == Some(StringType);
  }

  lemma IndexedStringClause(d: Dialect, m: string, f: Field)
    requires !f.attrs.primaryKey && f.attrs.index && !f.attrs.sortable
    requires f.ty == StringType || f.ty == OptionString
    ensures SchemaForField(d, m, f) == Ok(if f.attrs.fts then FullTextClause(d, SerializeName(f.attrs.name))
                                          else TagClause(d, SerializeName(f.attrs.name)))
  {
    StringTypeFacts();
  }

  lemma PlainStringClause(d: Dialect, m: string, f: Field)
    requires !f.attrs.primaryKey && !f.attrs.index && f.ty == StringType
    ensures SchemaForField(d, m, f) == Ok("")
  {
    StringTypeFacts();
  }

  lemma IndexedNumberClause(d: Dialect, m: string, f: Field, number: string)
    requires !f.attrs.primaryKey && f.attrs.index && number in NumericNames && f.ty == Simple(number, NoArgs)
    ensures SchemaForField(d, m, f) == Ok(WithSortable(NumericClause(d, SerializeName(f.attrs.name)), f.attrs.sortable))
  {
    assert LastSegment(f.ty) == Some(Segment(number, NoArgs));
  }

  /** An indexed `String` field, whether or not it is the primary key, is a tag. */
  lemma IdClause(d: Dialect, m: string, f: Field)
    requires f.attrs.index && !f.attrs.sortable && !f.attrs.fts && f.ty == StringType
    ensures SchemaForField(d, m, f) == Ok(TagClause(d, SerializeName(f.attrs.name)))
  {
    if !f.attrs.primaryKey {
      IndexedStringClause(d, m, f);
    }
  }

  // ---------------------------------------------------------------------------
  // `Address`
  // ---------------------------------------------------------------------------

  /**
   * `Address` of the search-model test: `id` (whether or not it was made the
   * primary key), `a`, `b` with full text, `c: u32` sortable and `d: f32`,
   * all indexed.
   */
  function AddressFields(idIsKey: bool): seq<Field> {
    [ Plain("id", 0, idIsKey, true, false, false, StringType),
      Plain("a", 1, false, true, false, false, StringType),
      Plain("b", 2, false, true, false, true, StringType),
      Plain("c", 3, false, true, true, false, Simple("u32", NoArgs)),
      Plain("d", 4, false, true, false, false, Simple("f32", NoArgs)) ]
  }

  function AddressClauses(): seq<string> {
    [ TagClause(HashDialect, "id"), TagClause(HashDialect, "a"), FullTextClause(HashDialect, "b"),
      NumericClause(HashDialect, "c") + SortableSuffix, NumericClause(HashDialect, "d") ]
  }

  /** The search schema of `Address`, clause by clause as the test lays it out. */
  function AddressSchemaPieces(): seq<string> {
    [ "ON HASH PREFIX 1 Address SCHEMA ",
      "id TAG SEPARATOR | ",
      "a TAG SEPARATOR | ",
      "b TAG SEPARATOR | b AS b_fts TEXT ",
      "c NUMERIC SORTABLE ",
      "d NUMERIC" ]
  }

  lemma AddressClausesAreTheTestedOnes(idIsKey: bool)
    ensures FieldClauses(HashDialect, SearchInnerTypeMessage, AddressFields(idIsKey)) == Ok(AddressClauses())
  {
    var fs := AddressFields(idIsKey);
    var m := SearchInnerTypeMessage;
    IdClause(HashDialect, m, fs[0]);
    IndexedStringClause(HashDialect, m, fs[1]);
    IndexedStringClause(HashDialect, m, fs[2]);
    IndexedNumberClause(HashDialect, m, fs[3], "u32");
    IndexedNumberClause(HashDialect, m, fs[4], "f32");
    ClausesOf(HashDialect, m, fs, AddressClauses());
  }

  lemma AddressPieceId() ensures TagClause(HashDialect, "id") + " " == "id TAG SEPARATOR | " {}
  lemma AddressPieceA() ensures TagClause(HashDialect, "a") + " " == "a TAG SEPARATOR | " {}
  lemma AddressPieceB() ensures FullTextClause(HashDialect, "b") + " " == "b TAG SEPARATOR | b AS b_fts TEXT " {
    assert TagClause(HashDialect, "b") + " " == "b TAG SEPARATOR | ";
  }
  lemma AddressPieceC() ensures NumericClause(HashDialect, "c") + SortableSuffix + " " == "c NUMERIC SORTABLE " {}
  lemma AddressPieceD() ensures NumericClause(HashDialect, "d") == "d NUMERIC" {}
  lemma AddressHeader() ensures "ON HASH PREFIX 1" + " " + "Address" + " SCHEMA " == "ON HASH PREFIX 1 Address SCHEMA " {}

  lemma AddressPieces()
    ensures PiecesOf(AddressClauses(), " ", AddressSchemaPieces()[1..])
    ensures AddressSchemaPieces()[0] == "ON HASH PREFIX 1" + " " + "Address" + " SCHEMA "
  {
    AddressPieceId();
    AddressPieceA();
    AddressPieceB();
    AddressPieceC();
    AddressPieceD();
    AddressHeader();
  }

  /** The search-model schema of `Address` is the one the repository's test expects. */
  lemma AddressSearchSchema(idIsKey: bool)
    ensures SearchSchema(Struct("Address", AddressFields(idIsKey)), []).0 == Generated(Concat(AddressSchemaPieces()))
  {
    AddressClausesAreTheTestedOnes(idIsKey);
    AddressPieces();
    SearchTextAsPieces("Address", AddressClauses(), AddressSchemaPieces());
  }

  // ---------------------------------------------------------------------------
  // `Member`
  // ---------------------------------------------------------------------------

  /**
   * `Member` of the JSON test: five indexed fields (`age: u32`), `bio:
   * Option<String>` indexed with full text, and `join_date` not indexed.
   */
  function MemberFields(idIsKey: bool): seq<Field> {
    [ Plain("id", 0, idIsKey, true, false, false, StringType),
      Plain("first_name", 1, false, true, false, false, StringType),
      Plain("last_name", 2, false, true, false, false, StringType),
      Plain("email", 3, false, true, false, false, StringType),
      Plain("age", 4, false, true, false, false, Simple("u32", NoArgs)),
      Plain("bio", 5, false, true, false, true, OptionString),
      Plain("join_date", 6, false, false, false, false, StringType) ]
  }

  /** The clauses of `Member`'s fields in a dialect: the last one is empty. */
  function MemberClauses(d: Dialect): seq<string> {
    [ TagClause(d, "id"), TagClause(d, "first_name"), TagClause(d, "last_name"),
      TagClause(d, "email"), NumericClause(d, "age"), FullTextClause(d, "bio"), "" ]
  }

  /** The JSON schema of `Member`, clause by clause as the test lays it out. */
  function MemberSchemaPieces(): seq<string> {
    [ "ON JSON PREFIX 1 Member SCHEMA ",
      "$.id AS id TAG SEPARATOR | ",
      "$.first_name AS first_name TAG SEPARATOR | ",
      "$.last_name AS last_name TAG SEPARATOR | ",
      "$.email AS email TAG SEPARATOR | ",
      "$.age AS age NUMERIC ",
      "$.bio AS bio TAG SEPARATOR | $.bio AS bio_fts TEXT" ]
  }

  lemma MemberClausesAreTheTestedOnes(d: Dialect, idIsKey: bool)
    ensures FieldClauses(d, UnwrapNoneMessage, MemberFields(idIsKey)) == Ok(MemberClauses(d))
  {
    var fs := MemberFields(idIsKey);
    MemberTagClauses(d, idIsKey);
    MemberOtherClauses(d, idIsKey);
    ClausesOf(d, UnwrapNoneMessage, fs, MemberClauses(d));
  }

  /** The clauses of `Member`'s four indexed `String` fields. */
  lemma MemberTagClauses(d: Dialect, idIsKey: bool)
    ensures forall i :: 0 <= i < 4 ==>
      SchemaForField(d, UnwrapNoneMessage, MemberFields(idIsKey)[i]) == Ok(MemberClauses(d)[i])
  {
    forall i | 0 <= i < 4
      ensures SchemaForField(d, UnwrapNoneMessage, MemberFields(idIsKey)[i]) == Ok(MemberClauses(d)[i])
    {
      MemberClauseAt(d, idIsKey, i);
    }
  }

  /** The clauses of `Member`'s number, full-text and unindexed fields. */
  lemma MemberOtherClauses(d: Dialect, idIsKey: bool)
    ensures forall i :: 4 <= i < 7 ==>
      SchemaForField(d, UnwrapNoneMessage, MemberFields(idIsKey)[i]) == Ok(MemberClauses(d)[i])
  {
    forall i | 4 <= i < 7
      ensures SchemaForField(d, UnwrapNoneMessage, MemberFields(idIsKey)[i]) == Ok(MemberClauses(d)[i])
    {
      MemberClauseAt(d, idIsKey, i);
    }
  }

  /** The clause of one field of `Member`. */
  lemma MemberClauseAt(d: Dialect, idIsKey: bool, i: nat)
    requires i < 7
    ensures SchemaForField(d, UnwrapNoneMessage, MemberFields(idIsKey)[i]) == Ok(MemberClauses(d)[i])
  {
    var f := MemberFields(idIsKey)[i];
    var m := UnwrapNoneMessage;
    if i == 0 {
      IdClause(d, m, f);
    } else if i < 4 || i == 5 {
      IndexedStringClause(d, m, f);
    } else if i == 4 {
      IndexedNumberClause(d, m, f, "u32");
    } else {
      PlainStringClause(d, m, f);
    }
  }

  lemma MemberPieceId() ensures TagClause(JsonDialect, "id") + " " == "$.id AS id TAG SEPARATOR | " {}
  lemma MemberPieceFirstName()
    ensures TagClause(JsonDialect, "first_name") + " " == "$.first_name AS first_name TAG SEPARATOR | " {}
  lemma MemberPieceLastName()
    ensures TagClause(JsonDialect, "last_name") + " " == "$.last_name AS last_name TAG SEPARATOR | " {}
  lemma MemberPieceEmail() ensures TagClause(JsonDialect, "email") + " " == "$.email AS email TAG SEPARATOR | " {}
  lemma MemberPieceAge() ensures NumericClause(JsonDialect, "age") + " " == "$.age AS age NUMERIC " {}
  lemma MemberPieceBio()
    ensures FullTextClause(JsonDialect, "bio") == "$.bio AS bio TAG SEPARATOR | $.bio AS bio_fts TEXT"
  {
    assert TagClause(JsonDialect, "bio") + " " == "$.bio AS bio TAG SEPARATOR | ";
  }
  lemma MemberHeader() ensures "ON JSON PREFIX 1 " + "Member" + " SCHEMA " == "ON JSON PREFIX 1 Member SCHEMA " {}

  lemma MemberPieces()
    ensures var cs := MemberClauses(JsonDialect); PiecesOf(cs[..|cs| - 1], " ", MemberSchemaPieces()[1..])
    ensures MemberSchemaPieces()[0] == "ON JSON PREFIX 1 " + "Member" + " SCHEMA "
  {
    MemberPieceId();
    MemberPieceFirstName();
    MemberPieceLastName();
    MemberPieceEmail();
    MemberPieceAge();
    MemberPieceBio();
    MemberHeader();
  }

  lemma MemberPieceEnds()
    ensures var ps := MemberSchemaPieces();
      && (forall i :: 1 <= i < |ps| ==> |ps[i]| > 0)
      && ps[1][0] == '$' && ps[6][|ps[6]| - 1] == 'T'
  {
  }

  /** The JSON schema of `Member` is the one the repository's test expects: the join's trailing space is trimmed. */
  lemma MemberJsonSchema(idIsKey: bool)
    ensures JsonSchema(Struct("Member", MemberFields(idIsKey)), []).0 == Generated(Concat(MemberSchemaPieces()))
  {
    MemberClausesAreTheTestedOnes(JsonDialect, idIsKey);
    MemberJsonText();
  }

  lemma MemberJsonText()
    ensures JsonSchemaText("Member", MemberClauses(JsonDialect)) == Concat(MemberSchemaPieces())
  {
    MemberPieces();
    MemberPieceEnds();
    JsonTextAsPieces("Member", MemberClauses(JsonDialect), MemberSchemaPieces());
  }

  /** The same struct in a hash keeps the trailing space: the hash schema is not trimmed. */
  lemma MemberHashSchemaKeepsSpace(idIsKey: bool)
    ensures var r := HashSchema(Struct("Member", MemberFields(idIsKey)), []).0;
      r.Generated? && r.value[|r.value| - 1] == ' '
  {
    MemberClausesAreTheTestedOnes(HashDialect, idIsKey);
    HashTextEndsWithSpace("Member", MemberClauses(HashDialect));
  }

  lemma HashTextEndsWithSpace(prefix: string, cs: seq<string>)
    requires |cs| >= 2 && cs[|cs| - 1] == ""
    ensures var t := HashSchemaText(prefix, cs); |t| > 0 && t[|t| - 1] == ' '
  {
    JoinEndsWithSeparator(cs, " ");
  }

  /** When the last part is empty and there are several, the join ends with the separator. */
  lemma {:induction false} JoinEndsWithSeparator(parts: seq<string>, sep: string)
    requires |parts| >= 2 && parts[|parts| - 1] == ""
    ensures var j := Join(parts, sep); |j| >= |sep| && j[|j| - |sep|..] == sep
    decreases |parts|
  {
    if |parts| == 2 {
      assert parts[1..] == [""];
      assert Join(parts, sep) == parts[0] + sep + "";
    } else {
      JoinEndsWithSeparator(parts[1..], sep);
      var rest := Join(parts[1..], sep);
      assert Join(parts, sep) == parts[0] + sep + rest;
      assert (parts[0] + sep + rest)[|parts[0] + sep + rest| - |sep|..] == rest[|rest| - |sep|..];
    }
  }

  // ---------------------------------------------------------------------------
  // `RedisModel`
  // ---------------------------------------------------------------------------

  /** `Account { id, first_name }`, as built: `id` was designated the primary key. */
  function Account(): Container {
    Struct("Account", [ Plain("id", 0, true, false, false, false, StringType),
                        Plain("first_name", 1, false, false, false, false, StringType) ])
  }

  /** `Details { #[redis(primary_key)] pk, city }` with `prefix_key = "info_details"`. */
  function Details(): Container {
    var c := Struct("Details", [ Plain("pk", 0, true, false, false, false, StringType),
                                 Plain("city", 1, false, false, false, false, StringType) ]);
    c.(attrs := c.attrs.(prefixKey := "info_details"))
  }

  /**
   * The two tests of `RedisModel`: the prefix is the type name or the given
   * one, and setting the key of a record with an empty key writes that field
   * only.
   */
  lemma AccountModel(ctx: Accumulators.Ctx)
    ensures RedisModels.Derive(Account(), ctx) == (Generated(RedisModels.ModelImpl("Account", "Account", "id")), ctx)
    ensures var m := RedisModels.ModelImpl("Account", "Account", "id");
      var rec := map["id" := "", "first_name" := "Joe"];
      RedisModels.SetPk(m, rec, "1234") == map["id" := "1234", "first_name" := "Joe"]
  {
    assert Account().data.fields[0].ident == Some("id");
  }

  lemma DetailsModel(ctx: Accumulators.Ctx)
    ensures RedisModels.Derive(Details(), ctx) == (Generated(RedisModels.ModelImpl("Details", "info_details", "pk")), ctx)
    ensures var m := RedisModels.ModelImpl("Details", "info_details", "pk");
      var rec := map["pk" := "", "city" := "Joe"];
      RedisModels.SetPk(m, rec, "1234") == map["pk" := "1234", "city" := "Joe"]
  {
    assert Details().data.fields[0].ident == Some("pk");
  }

  // ---------------------------------------------------------------------------
  // A qualified list type
  // ---------------------------------------------------------------------------

  /**
   * A field of type `std::vec::Vec<_>` that is not the primary key makes the
   * generators panic when it is indexed or listed: the type is a list by its
   * last segment, but the inner type is looked for in its first.
   */
  lemma QualifiedListPanics(f: Field, inner: Type)
    requires f.ty == QualifiedPath("vec", "Vec", inner) && !f.attrs.primaryKey
    ensures f.attrs.index ==> SchemaForField(HashDialect, UnwrapNoneMessage, f) == Err(UnwrapNoneMessage)
    ensures f.attrs.index ==> SchemaForField(HashDialect, SearchInnerTypeMessage, f) == Err(SearchInnerTypeMessage)
    ensures !f.attrs.index ==> SchemaForField(HashDialect, UnwrapNoneMessage, f) == Err(FieldInnerTypeMessage)
    ensures !f.attrs.index ==> SchemaForField(JsonDialect, UnwrapNoneMessage, f) == Err(FieldInnerTypeMessage)
  {
    QualifiedListHasNoInnerType(inner);
  }
}
