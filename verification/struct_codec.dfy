/**
 * The flat wire codec derived for a struct with named fields: each field is
 * written as one key/value pair, or — when its own encoding is not exactly
 * one argument — as pairs keyed `key.0`, `key.1`, ...; reading folds the
 * pairs back into a map and hands each field the value found under the
 * first of its possible keys.
 */
module StructCodec {
  import opened Wrappers
  import opened Strings
  import Utf8
  import opened Accumulators
  import opened Wire
  import opened Names
  import opened Containers
  import opened Casing

  /** The key a serialized field is written under. */
  datatype Write = Write(ident: string, key: string)

  /** The keys a deserialized field is looked up by, in order. */
  datatype Read = Read(ident: string, possibleKeys: seq<string>)

  /** The generated `ToRedisArgs` and `FromRedisValue` implementations. */
  datatype Codec = Codec(typeName: string, serialized: seq<Write>, deserialized: seq<Read>)

  const NotBulkPairsMessage: string := "the data is not in the bulk data format or the length is not / 2"

  /** The identifier a field is accessed by: its name, or its position in a tuple. */
  function FieldIdent(f: Field): string {
    match f.ident
    case Some(i) => i
    case None => NatToString(f.index)
  }

  /** The fields that are serialized, in order, each under its serialize name. */
  function WritesOf(fields: seq<Field>): (r: seq<Write>)
    ensures |r| <= |fields|
    ensures (forall i :: 0 <= i < |fields| ==> !fields[i].attrs.skipSerializing) ==>
      |r| == |fields| && forall i :: 0 <= i < |fields| ==> r[i] == Write(FieldIdent(fields[i]), SerializeName(fields[i].attrs.name))
    decreases |fields|
  {
    if |fields| == 0 then []
    else
      var rest := WritesOf(fields[1..]);
      assert forall i :: 1 <= i < |fields| ==> fields[i] == fields[1..][i - 1];
      if fields[0].attrs.skipSerializing then rest
      else [Write(FieldIdent(fields[0]), SerializeName(fields[0].attrs.name))] + rest
  }

  /** The fields that are deserialized, in order, each with its aliases and deserialize name. */
  function ReadsOf(fields: seq<Field>): (r: seq<Read>)
    ensures |r| <= |fields|
    ensures (forall i :: 0 <= i < |fields| ==> !fields[i].attrs.skipDeserializing) ==>
      |r| == |fields| && forall i :: 0 <= i < |fields| ==> r[i] == Read(FieldIdent(fields[i]), DeserializeAliases(fields[i].attrs.name))
    decreases |fields|
  {
    if |fields| == 0 then []
    else
      var rest := ReadsOf(fields[1..]);
      assert forall i :: 1 <= i < |fields| ==> fields[i] == fields[1..][i - 1];
      if fields[0].attrs.skipDeserializing then rest
      else [Read(FieldIdent(fields[0]), DeserializeAliases(fields[0].attrs.name))] + rest
  }

  /** Exactly the fields not skipped are written, each under its serialize name. */
  lemma {:induction false} WritesOfMembers(fields: seq<Field>, w: Write)
    ensures w in WritesOf(fields) <==>
      exists i :: 0 <= i < |fields| && !fields[i].attrs.skipSerializing
                  && w == Write(FieldIdent(fields[i]), SerializeName(fields[i].attrs.name))
    decreases |fields|
  {
    if |fields| > 0 {
      WritesOfMembers(fields[1..], w);
      assert forall i :: 1 <= i < |fields| ==> fields[i] == fields[1..][i - 1];
      if exists i :: 1 <= i < |fields| && !fields[i].attrs.skipSerializing
                     && w == Write(FieldIdent(fields[i]), SerializeName(fields[i].attrs.name)) {
        var i :| 1 <= i < |fields| && !fields[i].attrs.skipSerializing
                 && w == Write(FieldIdent(fields[i]), SerializeName(fields[i].attrs.name));
        assert fields[1..][i - 1] == fields[i];
      }
    }
  }

  /** Exactly the fields not skipped are read, each by its aliases and deserialize name. */
  lemma {:induction false} ReadsOfMembers(fields: seq<Field>, x: Read)
    ensures x in ReadsOf(fields) <==>
      exists i :: 0 <= i < |fields| && !fields[i].attrs.skipDeserializing
                  && x == Read(FieldIdent(fields[i]), DeserializeAliases(fields[i].attrs.name))
    decreases |fields|
  {
    if |fields| > 0 {
      ReadsOfMembers(fields[1..], x);
      assert forall i :: 1 <= i < |fields| ==> fields[i] == fields[1..][i - 1];
      if exists i :: 1 <= i < |fields| && !fields[i].attrs.skipDeserializing
                     && x == Read(FieldIdent(fields[i]), DeserializeAliases(fields[i].attrs.name)) {
        var i :| 1 <= i < |fields| && !fields[i].attrs.skipDeserializing
                 && x == Read(FieldIdent(fields[i]), DeserializeAliases(fields[i].attrs.name));
        assert fields[1..][i - 1] == fields[i];
      }
    }
  }

  // ---------------------------------------------------------------------------
  // Deriving
  // ---------------------------------------------------------------------------

  /** The suffix of the constant that holds a read field's possible keys. */
  const PossibleKeysSuffix: string := "_POSSIBLE_KEYS"

  /**
   * The name of that constant as `format_ident!` is given it: the field's
   * identifier as displayed, so a raw identifier keeps its `r#`, in upper
   * case, then the suffix.
   */
  function KeysConstName(ident: string): string {
    ToUppercase(ident) + PossibleKeysSuffix
  }

  /** The name the derive evidently means: the identifier without its `r#`, in upper case. */
  function KeysConstNameCorrected(ident: string): string {
    ToUppercase(Unraw(ident)) + PossibleKeysSuffix
  }

  /**
   * `Ident::new`'s check, for the one way a name built from a field
   * identifier can fail it: a `#`, which only the raw prefix `r#` puts into
   * a field's identifier.
   */
  predicate IdentAccepts(name: string) {
    '#' !in name
  }

  /** The panic of `Ident::new` on a name it refuses. */
  function InvalidIdentMessage(name: string): string {
    "\"" + name + "\" is not a valid Ident"
  }

  /** The constant name for a field identifier, as written or corrected. */
  function ConstName(corrected: bool, ident: string): string {
    if corrected then KeysConstNameCorrected(ident) else KeysConstName(ident)
  }

  /** A Rust identifier as the syntax tree displays it: a `#` only in a leading `r#`. */
  predicate RustIdent(ident: string) {
    '#' !in Unraw(ident)
  }

  /**
   * The deserializer half's walk over the fields, in order: each field not
   * skipped unwraps its identifier and then names the constant of its
   * possible keys; the first unwrap or name that fails panics.
   */
  function ReadPanic(corrected: bool, fields: seq<Field>): (r: Option<string>)
    ensures r.None? <==> forall i :: 0 <= i < |fields| && !fields[i].attrs.skipDeserializing ==>
                            fields[i].ident.Some? && IdentAccepts(ConstName(corrected, fields[i].ident.value))
    decreases |fields|
  {
    if |fields| == 0 then None
    else
      assert forall i :: 1 <= i < |fields| ==> fields[i] == fields[1..][i - 1];
      if fields[0].attrs.skipDeserializing then ReadPanic(corrected, fields[1..])
      else match fields[0].ident
        case None => Some(UnwrapNoneMessage)
        case Some(ident) =>
          if IdentAccepts(ConstName(corrected, ident)) then ReadPanic(corrected, fields[1..])
          else Some(InvalidIdentMessage(ConstName(corrected, ident)))
  }

  /**
   * `value::struct::derive`, with the constant names as written or corrected:
   * a style other than named fields is reported once, by the serializer
   * half; otherwise the serializer half unwraps the identifier of every
   * field it writes, and then the deserializer half walks the fields it reads.
   */
  function DeriveWith(corrected: bool, typeName: string, style: Style, fields: seq<Field>, ctx: Ctx): (Derived<Codec>, Ctx) {
    if style != StructStyle then (Rejected, ctx + [UnsupportedStyleMessage(style)])
    else if exists i :: 0 <= i < |fields| && !fields[i].attrs.skipSerializing && fields[i].ident.None? then
      (Panicked(UnwrapNoneMessage), ctx)
    else match ReadPanic(corrected, fields)
      case Some(m) => (Panicked(m), ctx)
      case None => (Generated(Codec(typeName, WritesOf(fields), ReadsOf(fields))), ctx)
  }

  /**
   * A field whose code cannot be built: it is written or read but has no
   * identifier, or it is read and its identifier carries a `#`.
   */
  predicate Unbuildable(f: Field) {
    || (f.ident.None? && (!f.attrs.skipSerializing || !f.attrs.skipDeserializing))
    || (f.ident.Some? && !f.attrs.skipDeserializing && '#' in f.ident.value)
  }

  /** Upper-casing neither adds nor removes a `#`. */
  lemma UppercaseKeepsHash(s: string)
    ensures '#' in ToUppercase(s) <==> '#' in s
  {
    var u := ToUppercase(s);
    if '#' in s {
      var i :| 0 <= i < |s| && s[i] == '#';
      assert u[i] == '#';
    }
    if '#' in u {
      var i :| 0 <= i < |u| && u[i] == '#';
      assert u[i] == AsciiToUpper(s[i]);
    }
  }

  /** The constant name as written is refused exactly when the identifier carries a `#`. */
  lemma KeysConstNameAccepted(ident: string)
    ensures IdentAccepts(KeysConstName(ident)) <==> '#' !in ident
  {
    UppercaseKeepsHash(ident);
    assert '#' !in PossibleKeysSuffix;
  }

  /** The corrected constant name is accepted for every Rust identifier, raw ones included. */
  lemma KeysConstNameCorrectedAccepted(ident: string)
    ensures IdentAccepts(KeysConstNameCorrected(ident)) <==> RustIdent(ident)
  {
    UppercaseKeepsHash(Unraw(ident));
    assert '#' !in PossibleKeysSuffix;
  }

  /**
   * `value::struct::derive`: only a struct with named fields gets a codec,
   * any other style is reported once; the derive panics exactly when some
   * field cannot be built, and otherwise generates the codec of the fields
   * it writes and reads.
   */
  function Derive(typeName: string, style: Style, fields: seq<Field>, ctx: Ctx): (r: (Derived<Codec>, Ctx))
    ensures r.0.Rejected? <==> style != StructStyle
    ensures style != StructStyle ==> r.1 == ctx + [UnsupportedStyleMessage(style)]
    ensures style == StructStyle ==> r.1 == ctx
    ensures r.0.Panicked? <==> style == StructStyle && exists i :: 0 <= i < |fields| && Unbuildable(fields[i])
    ensures r.0.Generated? ==> r.0.value == Codec(typeName, WritesOf(fields), ReadsOf(fields))
  {
    KeysConstNamesAccepted(fields);
    DeriveWith(false, typeName, style, fields, ctx)
  }

  lemma KeysConstNamesAccepted(fields: seq<Field>)
    ensures forall i :: 0 <= i < |fields| && fields[i].ident.Some? ==>
      (IdentAccepts(KeysConstName(fields[i].ident.value)) <==> '#' !in fields[i].ident.value)
  {
    forall i | 0 <= i < |fields| && fields[i].ident.Some? {
      KeysConstNameAccepted(fields[i].ident.value);
    }
  }

  /** The corrected derive: each constant is named after the unraw identifier. */
  function DeriveCorrected(typeName: string, style: Style, fields: seq<Field>, ctx: Ctx): (Derived<Codec>, Ctx) {
    DeriveWith(true, typeName, style, fields, ctx)
  }

  /**
   * With the names of its fields, the first read field whose identifier is
   * raw decides the derive's panic: `Ident::new` refuses the upper-cased
   * name, `r#` included.
   */
  lemma {:induction false} FirstRawFieldPanics(fields: seq<Field>, k: nat)
    requires k < |fields| && !fields[k].attrs.skipDeserializing && fields[k].ident.Some? && '#' in fields[k].ident.value
    requires forall i :: 0 <= i < k && !fields[i].attrs.skipDeserializing ==> fields[i].ident.Some? && '#' !in fields[i].ident.value
    ensures ReadPanic(false, fields) == Some(InvalidIdentMessage(KeysConstName(fields[k].ident.value)))
    decreases k
  {
    assert fields[0] == fields[..][0];
    if k == 0 {
      KeysConstNameAccepted(fields[0].ident.value);
    } else {
      assert forall i :: 1 <= i < |fields| ==> fields[i] == fields[1..][i - 1];
      if !fields[0].attrs.skipDeserializing {
        KeysConstNameAccepted(fields[0].ident.value);
      }
      FirstRawFieldPanics(fields[1..], k - 1);
    }
  }

  /** The derive as written panics on the first read field with a raw identifier, naming the refused constant. */
  lemma RawFieldPanics(typeName: string, fields: seq<Field>, ctx: Ctx, k: nat)
    requires forall i :: 0 <= i < |fields| ==> fields[i].ident.Some?
    requires k < |fields| && !fields[k].attrs.skipDeserializing && '#' in fields[k].ident.value
    requires forall i :: 0 <= i < k && !fields[i].attrs.skipDeserializing ==> '#' !in fields[i].ident.value
    ensures Derive(typeName, StructStyle, fields, ctx) == (Panicked(InvalidIdentMessage(KeysConstName(fields[k].ident.value))), ctx)
  {
    FirstRawFieldPanics(fields, k);
  }

  /** The constant of a field `r#type` is named `R#TYPE_POSSIBLE_KEYS`. */
  lemma RawTypeConstName()
    ensures KeysConstName("r#type") == "R#TYPE_POSSIBLE_KEYS"
  {
    assert ToUppercase("r#type") == "R#TYPE";
  }

  /** Corrected, it is named `TYPE_POSSIBLE_KEYS`. */
  lemma RawTypeConstNameCorrected()
    ensures KeysConstNameCorrected("r#type") == "TYPE_POSSIBLE_KEYS"
  {
    assert Unraw("r#type") == "type";
    assert ToUppercase("type") == "TYPE";
  }

  /** `struct S { r#type: String }`: the derive panics, as `Ident::new` refuses `R#TYPE_POSSIBLE_KEYS`. */
  lemma RawTypeFieldPanics(f: Field, ctx: Ctx)
    requires f.ident == Some("r#type") && !f.attrs.skipDeserializing
    ensures Derive("S", StructStyle, [f], ctx) == (Panicked(InvalidIdentMessage("R#TYPE_POSSIBLE_KEYS")), ctx)
  {
    assert "r#type"[1] == '#';
    RawFieldPanics("S", [f], ctx, 0);
    RawTypeConstName();
  }

  /** Where no identifier carries a `#`, the corrected derive is the derive as written. */
  lemma DeriveCorrectedAgrees(typeName: string, style: Style, fields: seq<Field>, ctx: Ctx)
    requires forall i :: 0 <= i < |fields| && fields[i].ident.Some? ==> '#' !in fields[i].ident.value
    ensures DeriveCorrected(typeName, style, fields, ctx) == Derive(typeName, style, fields, ctx)
  {
    forall i | 0 <= i < |fields| && fields[i].ident.Some?
      ensures KeysConstNameCorrected(fields[i].ident.value) == KeysConstName(fields[i].ident.value)
    {
      assert Unraw(fields[i].ident.value) == fields[i].ident.value;
    }
    ReadPanicAgrees(fields);
  }

  lemma {:induction false} ReadPanicAgrees(fields: seq<Field>)
    requires forall i :: 0 <= i < |fields| && fields[i].ident.Some? ==> KeysConstNameCorrected(fields[i].ident.value) == KeysConstName(fields[i].ident.value)
    ensures ReadPanic(true, fields) == ReadPanic(false, fields)
    decreases |fields|
  {
    if |fields| > 0 {
      assert forall i :: 1 <= i < |fields| ==> fields[i] == fields[1..][i - 1];
      ReadPanicAgrees(fields[1..]);
    }
  }

  /** A struct whose fields are named by Rust identifiers, raw ones included, always gets its codec from the corrected derive. */
  lemma CorrectedRawFieldsBuild(typeName: string, fields: seq<Field>, ctx: Ctx)
    requires forall i :: 0 <= i < |fields| ==> fields[i].ident.Some? && RustIdent(fields[i].ident.value)
    ensures DeriveCorrected(typeName, StructStyle, fields, ctx) == (Generated(Codec(typeName, WritesOf(fields), ReadsOf(fields))), ctx)
  {
    CorrectedNamesAccepted(fields);
    assert ReadPanic(true, fields) == None;
    assert !exists i :: 0 <= i < |fields| && !fields[i].attrs.skipSerializing && fields[i].ident.None?;
  }

  lemma CorrectedNamesAccepted(fields: seq<Field>)
    ensures forall i :: 0 <= i < |fields| && fields[i].ident.Some? ==>
      (IdentAccepts(KeysConstNameCorrected(fields[i].ident.value)) <==> RustIdent(fields[i].ident.value))
  {
    forall i | 0 <= i < |fields| && fields[i].ident.Some? {
      KeysConstNameCorrectedAccepted(fields[i].ident.value);
    }
  }

  // ---------------------------------------------------------------------------
  // Writing
  // ---------------------------------------------------------------------------

  /** The key of the `index`-th piece of a field: `key.index`. */
  function PieceKey(key: string, index: nat): string {
    key + "." + NatToString(index)
  }

  /** The pieces of a field from position `from` on, each under its indexed key. */
  function IndexedArgs(key: string, args: seq<Utf8.Bytes>, from: nat): (r: seq<Utf8.Bytes>)
    requires from <= |args|
    ensures |r| == 2 * (|args| - from)
    ensures IndexedPairs(key, args, from, r)
    decreases |args| - from
  {
    if from == |args| then []
    else
      var rest := IndexedArgs(key, args, from + 1);
      IndexedPairsCons(key, args, from, rest);
      [Utf8.Encode(PieceKey(key, from)), args[from]] + rest
  }

  /** The pair at `j` is a piece at position `from` or later, under its indexed key. */
  predicate IndexedPairAt(key: string, args: seq<Utf8.Bytes>, from: nat, r: seq<Utf8.Bytes>, j: nat) {
    j + 1 < |r| && exists n :: from <= n < |args| && r[j] == Utf8.Encode(PieceKey(key, n)) && r[j + 1] == args[n]
  }

  /** Every pair of `r` is a piece at position `from` or later, under its indexed key. */
  predicate IndexedPairs(key: string, args: seq<Utf8.Bytes>, from: nat, r: seq<Utf8.Bytes>) {
    forall j: nat :: j < |r| && j % 2 == 0 ==> IndexedPairAt(key, args, from, r, j)
  }

  /** Putting the piece at `from` before the later pieces keeps every pair a piece under its own key. */
  lemma IndexedPairsCons(key: string, args: seq<Utf8.Bytes>, from: nat, rest: seq<Utf8.Bytes>)
    requires from < |args|
    requires IndexedPairs(key, args, from + 1, rest)
    ensures IndexedPairs(key, args, from, [Utf8.Encode(PieceKey(key, from)), args[from]] + rest)
  {
    var r := [Utf8.Encode(PieceKey(key, from)), args[from]] + rest;
    forall j: nat | j < |r| && j % 2 == 0
      ensures IndexedPairAt(key, args, from, r, j)
    {
      if j == 0 {
        assert r[0] == Utf8.Encode(PieceKey(key, from)) && r[1] == args[from];
      } else {
        assert r[j] == rest[j - 2] && r[j + 1] == rest[j - 1];
        assert IndexedPairAt(key, args, from + 1, rest, j - 2);
      }
    }
  }

  /** `k`, `v` is one of the pairs a field written under `key` gives for its arguments `args`. */
  predicate FieldPair(key: string, args: seq<Utf8.Bytes>, k: Utf8.Bytes, v: Utf8.Bytes) {
    || (|args| == 1 && k == Utf8.Encode(key) && v == args[0])
    || (|args| != 1 && exists n :: 0 <= n < |args| && k == Utf8.Encode(PieceKey(key, n)) && v == args[n])
  }

  /** Every pair of `r` is one the field written under `key` gives for `args`. */
  predicate FieldPairs(key: string, args: seq<Utf8.Bytes>, r: seq<Utf8.Bytes>) {
    forall j :: 0 <= j && j + 1 < |r| && j % 2 == 0 ==> FieldPair(key, args, r[j], r[j + 1])
  }

  /** `k`, `v` is a pair one of the written fields gives for its encoded value. */
  predicate WrittenPair(ws: seq<Write>, rec: map<string, seq<Utf8.Bytes>>, k: Utf8.Bytes, v: Utf8.Bytes) {
    exists i :: 0 <= i < |ws| && ws[i].ident in rec && FieldPair(ws[i].key, rec[ws[i].ident], k, v)
  }

  /** The arguments alternate key and value, every pair being one the written fields give. */
  predicate AlternatesPairs(ws: seq<Write>, rec: map<string, seq<Utf8.Bytes>>, r: seq<Utf8.Bytes>) {
    && |r| % 2 == 0
    && forall j :: 0 <= j && j + 1 < |r| && j % 2 == 0 ==> WrittenPair(ws, rec, r[j], r[j + 1])
  }

  /** One field: a single argument under its key, any other number of them as indexed pieces. */
  function FieldArgs(key: string, args: seq<Utf8.Bytes>): (r: seq<Utf8.Bytes>)
    ensures |args| == 1 ==> r == [Utf8.Encode(key), args[0]]
    ensures |args| != 1 ==> |r| == 2 * |args|
    ensures |args| == 0 ==> r == []
    ensures FieldPairs(key, args, r)
  {
    if |args| == 1 then [Utf8.Encode(key), args[0]]
    else
      IndexedAreFieldPairs(key, args);
      IndexedArgs(key, args, 0)
  }

  lemma IndexedAreFieldPairs(key: string, args: seq<Utf8.Bytes>)
    requires |args| != 1
    ensures FieldPairs(key, args, IndexedArgs(key, args, 0))
  {
    var r := IndexedArgs(key, args, 0);
    forall j | 0 <= j && j + 1 < |r| && j % 2 == 0
      ensures FieldPair(key, args, r[j], r[j + 1])
    {
      assert IndexedPairAt(key, args, 0, r, j);
    }
  }

  /** Every field value is encoded, by the field's own `ToRedisArgs`, into `rec[ident]`. */
  predicate Covers(ws: seq<Write>, rec: map<string, seq<Utf8.Bytes>>) {
    forall i :: 0 <= i < |ws| ==> ws[i].ident in rec
  }

  function EncodeWrites(ws: seq<Write>, rec: map<string, seq<Utf8.Bytes>>): (r: seq<Utf8.Bytes>)
    requires Covers(ws, rec)
    ensures AlternatesPairs(ws, rec, r)
    decreases |ws|
  {
    if |ws| == 0 then []
    else
      var rest := EncodeWrites(ws[1..], rec);
      WritesPairsCons(ws, rec, rest);
      FieldArgs(ws[0].key, rec[ws[0].ident]) + rest
  }

  /** The first field's pairs before the pairs of the others alternate over all of them. */
  lemma WritesPairsCons(ws: seq<Write>, rec: map<string, seq<Utf8.Bytes>>, rest: seq<Utf8.Bytes>)
    requires |ws| > 0 && ws[0].ident in rec
    requires AlternatesPairs(ws[1..], rec, rest)
    ensures AlternatesPairs(ws, rec, FieldArgs(ws[0].key, rec[ws[0].ident]) + rest)
  {
    var head := FieldArgs(ws[0].key, rec[ws[0].ident]);
    var r := head + rest;
    forall j | 0 <= j && j + 1 < |r| && j % 2 == 0
      ensures WrittenPair(ws, rec, r[j], r[j + 1])
    {
      if j < |head| {
        assert r[j] == head[j] && r[j + 1] == head[j + 1];
        assert FieldPair(ws[0].key, rec[ws[0].ident], r[j], r[j + 1]);
      } else {
        var j' := j - |head|;
        assert r[j] == rest[j'] && r[j + 1] == rest[j' + 1];
        assert j' % 2 == 0;
        assert WrittenPair(ws[1..], rec, rest[j'], rest[j' + 1]);
        var i :| 0 <= i < |ws[1..]| && ws[1..][i].ident in rec && FieldPair(ws[1..][i].key, rec[ws[1..][i].ident], r[j], r[j + 1]);
        assert ws[i + 1] == ws[1..][i];
      }
    }
  }

  /** `write_redis_args`: the serialized fields' pairs, in field order. */
  function Encode(c: Codec, rec: map<string, seq<Utf8.Bytes>>): (r: seq<Utf8.Bytes>)
    requires Covers(c.serialized, rec)
    ensures AlternatesPairs(c.serialized, rec, r)
  {
    EncodeWrites(c.serialized, rec)
  }

  // ---------------------------------------------------------------------------
  // Reading
  // ---------------------------------------------------------------------------

  /**
   * One pair read back: a plain key replaces what is stored under it; a
   * dotted key `prefix.rest` appends to the list stored under `prefix`, or
   * starts one when there is none. The part after the dot is not read.
   */
  function Insert(fm: map<string, Value>, key: string, value: Value): map<string, Value> {
    match SplitOnce(key, '.')
    case None => fm[key := value]
    case Some((prefix, _)) =>
      if prefix in fm && fm[prefix].Bulk? then fm[prefix := Bulk(fm[prefix].items + [value])]
      else fm[prefix := Bulk([value])]
  }

  /** The loop over `bulk.chunks(2)`; a key that is not a string ends it with an error. */
  function FoldPairs(fm: map<string, Value>, items: seq<Value>): (r: Result<map<string, Value>, RedisError>)
    requires |items| % 2 == 0
    ensures r.Err? <==> exists j :: 0 <= j < |items| && j % 2 == 0 && StringOf(items[j]).Err?
    ensures r.Err? ==> r.error.kind == TypeError
    decreases |items|
  {
    if |items| == 0 then Ok(fm)
    else match StringOf(items[0])
      case Err(e) => Err(e)
      case Ok(k) =>
        var r := FoldPairs(Insert(fm, k, items[1]), items[2..]);
        assert forall j :: 2 <= j < |items| ==> items[j] == items[2..][j - 2];
        if r.Err? then
          var j :| 0 <= j < |items[2..]| && j % 2 == 0 && StringOf(items[2..][j]).Err?;
          assert StringOf(items[j + 2]).Err?;
          r
        else r
  }

  /** The value under the first possible key present, else `Nil`. */
  function Lookup(fm: map<string, Value>, keys: seq<string>): (r: Value)
    ensures (forall i :: 0 <= i < |keys| ==> keys[i] !in fm) ==> r == Nil
    ensures |keys| > 0 && keys[0] in fm ==> r == fm[keys[0]]
    ensures forall k :: 0 <= k < |keys| && keys[k] in fm && (forall j :: 0 <= j < k ==> keys[j] !in fm) ==> r == fm[keys[k]]
    decreases |keys|
  {
    if |keys| == 0 then Nil
    else if keys[0] in fm then fm[keys[0]]
    else
      assert forall k :: 1 <= k < |keys| ==> keys[k] == keys[1..][k - 1];
      Lookup(fm, keys[1..])
  }

  /**
   * `from_redis_value`: the reply must be a bulk of pairs; the value each
   * deserialized field's own `FromRedisValue` then receives, in order.
   */
  function Decode(c: Codec, v: Value): (r: Result<seq<Value>, RedisError>)
    ensures !v.Bulk? || |v.items| % 2 != 0 ==> r == Err(RedisError(TypeError, NotBulkPairsMessage, None))
    ensures r.Ok? ==> |r.value| == |c.deserialized|
    ensures v.Bulk? && |v.items| % 2 == 0 ==>
      && (r.Err? <==> exists j :: 0 <= j < |v.items| && j % 2 == 0 && StringOf(v.items[j]).Err?)
      && (r.Err? ==> r.error.kind == TypeError)
      && (r.Ok? ==> forall i :: 0 <= i < |c.deserialized| ==>
            r.value[i] == Lookup(FoldPairs(map[], v.items).value, c.deserialized[i].possibleKeys))
  {
    if !v.Bulk? || |v.items| % 2 != 0 then Err(RedisError(TypeError, NotBulkPairsMessage, None))
    else match FoldPairs(map[], v.items)
      case Err(e) => Err(e)
      case Ok(fm) => Ok(seq(|c.deserialized|, i requires 0 <= i < |c.deserialized| => Lookup(fm, c.deserialized[i].possibleKeys)))
  }

  // ---------------------------------------------------------------------------
  // Round trip
  // ---------------------------------------------------------------------------

  /** What a field's arguments read back as: one argument as itself, none as `Nil`, more as a list. */
  function Received(args: seq<Utf8.Bytes>): Value {
    if |args| == 1 then Data(args[0])
    else if |args| == 0 then Nil
    else Bulk(DataItems(args))
  }

  /** The map after a field has been read back: nothing stored for a field with no arguments. */
  function Stored(fm: map<string, Value>, key: string, args: seq<Utf8.Bytes>): map<string, Value> {
    if |args| == 0 then fm else fm[key := Received(args)]
  }

  function StoredAll(fm: map<string, Value>, ws: seq<Write>, rec: map<string, seq<Utf8.Bytes>>): map<string, Value>
    requires Covers(ws, rec)
    decreases |ws|
  {
    if |ws| == 0 then fm else StoredAll(Stored(fm, ws[0].key, rec[ws[0].ident]), ws[1..], rec)
  }

  lemma {:induction false} FoldPairsAppend(fm: map<string, Value>, a: seq<Value>, b: seq<Value>)
    requires |a| % 2 == 0 && |b| % 2 == 0
    ensures FoldPairs(fm, a + b) == match FoldPairs(fm, a) case Err(e) => Err(e) case Ok(m) => FoldPairs(m, b)
    decreases |a|
  {
    if |a| > 0 {
      assert (a + b)[0] == a[0] && (a + b)[1] == a[1];
      assert (a + b)[2..] == a[2..] + b;
      match StringOf(a[0])
      case Err(_) =>
      case Ok(k) => FoldPairsAppend(Insert(fm, k, a[1]), a[2..], b);
    } else {
      assert a + b == b;
    }
  }

  /** Reading the pair `[key, x]` back stores `x` under `key`, when `key` has no dot. */
  lemma FoldSingle(fm: map<string, Value>, key: string, x: Utf8.Bytes)
    requires '.' !in key
    ensures FoldPairs(fm, DataItems([Utf8.Encode(key), x])) == Ok(fm[key := Data(x)])
  {
    StringOfWritten(key);
    var items := DataItems([Utf8.Encode(key), x]);
    assert items[2..] == [];
  }

  /** The piece keys split back into the field key, whatever the index. */
  lemma PieceKeySplits(key: string, index: nat)
    requires '.' !in key
    ensures SplitOnce(PieceKey(key, index), '.') == Some((key, NatToString(index)))
  {
    SplitOnceOfJoined(key, '.', NatToString(index));
  }

  /** A piece extends the list under its field key, or starts one. */
  lemma InsertPiece(fm: map<string, Value>, key: string, index: nat, v: Value)
    requires '.' !in key
    ensures Insert(fm, PieceKey(key, index), v)
         == if key in fm && fm[key].Bulk? then fm[key := Bulk(fm[key].items + [v])] else fm[key := Bulk([v])]
  {
    PieceKeySplits(key, index);
  }

  /** The first pair of a written sequence is read with its key as written. */
  lemma FoldPairsCons(fm: map<string, Value>, key: string, x: Utf8.Bytes, rest: seq<Utf8.Bytes>)
    requires |rest| % 2 == 0
    ensures FoldPairs(fm, DataItems([Utf8.Encode(key), x] + rest))
         == FoldPairs(Insert(fm, key, Data(x)), DataItems(rest))
  {
    var items := DataItems([Utf8.Encode(key), x] + rest);
    DataItemsAppend([Utf8.Encode(key), x], rest);
    assert items[2..] == DataItems(rest);
    StringOfWritten(key);
  }

  /** The piece at position `from` extends the list of the earlier pieces. */
  lemma InsertPieceExtends(fm: map<string, Value>, key: string, args: seq<Utf8.Bytes>, from: nat)
    requires '.' !in key && from < |args|
    requires from == 0 ==> key !in fm
    requires from > 0 ==> key in fm && fm[key] == Bulk(DataItems(args[..from]))
    ensures Insert(fm, PieceKey(key, from), Data(args[from])) == fm[key := Bulk(DataItems(args[..from + 1]))]
  {
    InsertPiece(fm, key, from, Data(args[from]));
    var list := DataItems(args[..from + 1]);
    if from == 0 {
      assert list == [Data(args[from])];
    } else {
      assert fm[key].items + [Data(args[from])] == list;
    }
  }

  /** Reading the piece at position `from` extends the list under the field key by that piece. */
  lemma FoldIndexedStep(fm: map<string, Value>, key: string, args: seq<Utf8.Bytes>, from: nat)
    requires '.' !in key && from < |args|
    requires from == 0 ==> key !in fm
    requires from > 0 ==> key in fm && fm[key] == Bulk(DataItems(args[..from]))
    ensures FoldPairs(fm, DataItems(IndexedArgs(key, args, from)))
         == FoldPairs(fm[key := Bulk(DataItems(args[..from + 1]))], DataItems(IndexedArgs(key, args, from + 1)))
  {
    var rest := IndexedArgs(key, args, from + 1);
    assert IndexedArgs(key, args, from) == [Utf8.Encode(PieceKey(key, from)), args[from]] + rest;
    FoldPairsCons(fm, PieceKey(key, from), args[from], rest);
    InsertPieceExtends(fm, key, args, from);
  }

  /** Reading the pieces from position `from` on finishes the list begun by the earlier ones. */
  lemma {:induction false} FoldIndexed(fm: map<string, Value>, key: string, args: seq<Utf8.Bytes>, from: nat)
    requires '.' !in key && 0 < |args| && from <= |args|
    requires from == 0 ==> key !in fm
    requires from > 0 ==> key in fm && fm[key] == Bulk(DataItems(args[..from]))
    ensures FoldPairs(fm, DataItems(IndexedArgs(key, args, from))) == Ok(fm[key := Bulk(DataItems(args))])
    decreases |args| - from
  {
    if from == |args| {
      assert args[..from] == args;
      assert fm[key := Bulk(DataItems(args))] == fm;
    } else {
      FoldIndexedStep(fm, key, args, from);
      var fm1 := fm[key := Bulk(DataItems(args[..from + 1]))];
      FoldIndexed(fm1, key, args, from + 1);
      assert fm1[key := Bulk(DataItems(args))] == fm[key := Bulk(DataItems(args))];
    }
  }

  /** Reading one field's pairs back stores what the field wrote, under its key. */
  lemma FoldField(fm: map<string, Value>, key: string, args: seq<Utf8.Bytes>)
    requires '.' !in key && key !in fm
    ensures FoldPairs(fm, DataItems(FieldArgs(key, args))) == Ok(Stored(fm, key, args))
  {
    if |args| == 1 {
      FoldSingle(fm, key, args[0]);
    } else if |args| > 0 {
      FoldIndexed(fm, key, args, 0);
    }
  }

  /** The keys written are plain, and no two serialized fields share one. */
  predicate DistinctPlainKeys(ws: seq<Write>) {
    (forall i :: 0 <= i < |ws| ==> '.' !in ws[i].key)
    && (forall i, j :: 0 <= i < j < |ws| ==> ws[i].key != ws[j].key)
  }

  /** Reading every field's pairs back stores each field's arguments under its key. */
  lemma {:induction false} FoldWrites(fm: map<string, Value>, ws: seq<Write>, rec: map<string, seq<Utf8.Bytes>>)
    requires Covers(ws, rec) && DistinctPlainKeys(ws)
    requires forall i :: 0 <= i < |ws| ==> ws[i].key !in fm
    ensures FoldPairs(fm, DataItems(EncodeWrites(ws, rec))) == Ok(StoredAll(fm, ws, rec))
    decreases |ws|
  {
    if |ws| > 0 {
      FoldWritesFirst(fm, ws, rec);
      WritesTail(fm, ws, rec);
      FoldWrites(Stored(fm, ws[0].key, rec[ws[0].ident]), ws[1..], rec);
    }
  }

  /** Reading back the first field's pairs leaves the other fields' pairs to be read into its stored map. */
  lemma FoldWritesFirst(fm: map<string, Value>, ws: seq<Write>, rec: map<string, seq<Utf8.Bytes>>)
    requires |ws| > 0 && Covers(ws, rec) && '.' !in ws[0].key && ws[0].key !in fm
    ensures FoldPairs(fm, DataItems(EncodeWrites(ws, rec)))
         == FoldPairs(Stored(fm, ws[0].key, rec[ws[0].ident]), DataItems(EncodeWrites(ws[1..], rec)))
  {
    var first := FieldArgs(ws[0].key, rec[ws[0].ident]);
    var rest := EncodeWrites(ws[1..], rec);
    assert EncodeWrites(ws, rec) == first + rest;
    DataItemsAppend(first, rest);
    FoldPairsAppend(fm, DataItems(first), DataItems(rest));
    FoldField(fm, ws[0].key, rec[ws[0].ident]);
  }

  /** After the first field is stored, the remaining fields still meet the conditions of `FoldWrites`. */
  lemma WritesTail(fm: map<string, Value>, ws: seq<Write>, rec: map<string, seq<Utf8.Bytes>>)
    requires |ws| > 0 && Covers(ws, rec) && DistinctPlainKeys(ws)
    requires forall i :: 0 <= i < |ws| ==> ws[i].key !in fm
    ensures Covers(ws[1..], rec) && DistinctPlainKeys(ws[1..])
    ensures forall i :: 0 <= i < |ws[1..]| ==> ws[1..][i].key !in Stored(fm, ws[0].key, rec[ws[0].ident])
  {
    assert forall i :: 0 <= i < |ws[1..]| ==> ws[1..][i] == ws[i + 1];
  }

  /** After reading back, a field's key holds its arguments exactly when it wrote some; no other key is present. */
  lemma {:induction false} StoredAllLookup(fm: map<string, Value>, ws: seq<Write>, rec: map<string, seq<Utf8.Bytes>>, k: string)
    requires Covers(ws, rec) && DistinctPlainKeys(ws)
    ensures (k in StoredAll(fm, ws, rec)) <==>
      (k in fm || exists i :: 0 <= i < |ws| && ws[i].key == k && |rec[ws[i].ident]| > 0)
    ensures forall i :: 0 <= i < |ws| && ws[i].key == k && |rec[ws[i].ident]| > 0 ==>
      StoredAll(fm, ws, rec)[k] == Received(rec[ws[i].ident])
    ensures k in fm && (forall i :: 0 <= i < |ws| ==> ws[i].key != k || |rec[ws[i].ident]| == 0) ==>
      StoredAll(fm, ws, rec)[k] == fm[k]
    decreases |ws|
  {
    if |ws| > 0 {
      var fm1 := Stored(fm, ws[0].key, rec[ws[0].ident]);
      assert forall i :: 0 <= i < |ws[1..]| ==> ws[1..][i] == ws[i + 1];
      StoredAllLookup(fm1, ws[1..], rec, k);
      if exists i :: 1 <= i < |ws| && ws[i].key == k && |rec[ws[i].ident]| > 0 {
        var i :| 1 <= i < |ws| && ws[i].key == k && |rec[ws[i].ident]| > 0;
        assert ws[1..][i - 1] == ws[i];
      }
    }
  }

  /** Only the first possible key that is present counts. */
  lemma {:induction false} LookupOnly(fm: map<string, Value>, keys: seq<string>, k: string)
    requires k in keys
    requires forall j :: 0 <= j < |keys| && keys[j] in fm ==> keys[j] == k
    ensures Lookup(fm, keys) == if k in fm then fm[k] else Nil
    decreases |keys|
  {
    if keys[0] != k {
      assert k in keys[1..];
      assert forall j :: 0 <= j < |keys[1..]| ==> keys[1..][j] == keys[j + 1];
      LookupOnly(fm, keys[1..], k);
    }
  }

  /** A deserialized field has a serialized counterpart whose key is among its possible keys. */
  predicate HasCounterpart(c: Codec, r: nat)
    requires r < |c.deserialized|
  {
    exists i :: 0 <= i < |c.serialized| && c.serialized[i].ident == c.deserialized[r].ident
                && c.serialized[i].key in c.deserialized[r].possibleKeys
  }

  /**
   * The codec's conditions for a faithful round trip: written keys are plain
   * and distinct, fields are written under distinct identifiers, and each
   * deserialized field has a written counterpart whose key is among its
   * possible keys while no other field's key is.
   */
  predicate RoundTrips(c: Codec) {
    && DistinctPlainKeys(c.serialized)
    && (forall i, j :: 0 <= i < j < |c.serialized| ==> c.serialized[i].ident != c.serialized[j].ident)
    && (forall r :: 0 <= r < |c.deserialized| ==> HasCounterpart(c, r))
    && (forall r, j :: 0 <= r < |c.deserialized| && 0 <= j < |c.serialized| && c.serialized[j].key in c.deserialized[r].possibleKeys ==>
          c.serialized[j].ident == c.deserialized[r].ident)
  }

  /** What each deserialized field receives after a faithful round trip. */
  function ReceivedAll(c: Codec, rec: map<string, seq<Utf8.Bytes>>): (r: seq<Value>)
    requires forall k :: 0 <= k < |c.deserialized| ==> c.deserialized[k].ident in rec
    ensures |r| == |c.deserialized|
    ensures forall k :: 0 <= k < |c.deserialized| ==> r[k] == Received(rec[c.deserialized[k].ident])
  {
    seq(|c.deserialized|, k requires 0 <= k < |c.deserialized| => Received(rec[c.deserialized[k].ident]))
  }

  /** The lookup each deserialized field makes finds what its counterpart wrote. */
  lemma LookupCounterpart(c: Codec, rec: map<string, seq<Utf8.Bytes>>, r: nat)
    requires Covers(c.serialized, rec) && RoundTrips(c) && r < |c.deserialized|
    ensures c.deserialized[r].ident in rec
    ensures Lookup(StoredAll(map[], c.serialized, rec), c.deserialized[r].possibleKeys)
         == Received(rec[c.deserialized[r].ident])
  {
    var ws := c.serialized;
    var fm := StoredAll(map[], ws, rec);
    assert HasCounterpart(c, r);
    var i :| 0 <= i < |ws| && ws[i].ident == c.deserialized[r].ident && ws[i].key in c.deserialized[r].possibleKeys;
    var keys := c.deserialized[r].possibleKeys;
    forall j | 0 <= j < |keys| && keys[j] in fm
      ensures keys[j] == ws[i].key
    {
      StoredAllLookup(map[], ws, rec, keys[j]);
      var l :| 0 <= l < |ws| && ws[l].key == keys[j] && |rec[ws[l].ident]| > 0;
      assert ws[l].ident == ws[i].ident;
    }
    LookupOnly(fm, keys, ws[i].key);
    StoredAllLookup(map[], ws, rec, ws[i].key);
  }

  /**
   * Reading back what was written hands every deserialized field exactly the
   * arguments its own encoding produced: one argument as data, several as a
   * list of data in order, none as `Nil`.
   */
  lemma RoundTrip(c: Codec, rec: map<string, seq<Utf8.Bytes>>)
    requires Covers(c.serialized, rec) && RoundTrips(c)
    ensures forall k :: 0 <= k < |c.deserialized| ==> c.deserialized[k].ident in rec
    ensures Decode(c, Reply(Encode(c, rec))) == Ok(ReceivedAll(c, rec))
  {
    var ws := c.serialized;
    FoldWrites(map[], ws, rec);
    var fm := StoredAll(map[], ws, rec);
    forall k | 0 <= k < |c.deserialized|
      ensures c.deserialized[k].ident in rec
      ensures Lookup(fm, c.deserialized[k].possibleKeys) == Received(rec[c.deserialized[k].ident])
    {
      LookupCounterpart(c, rec, k);
    }
    var got := seq(|c.deserialized|, k requires 0 <= k < |c.deserialized| => Lookup(fm, c.deserialized[k].possibleKeys));
    assert Decode(c, Reply(Encode(c, rec))) == Ok(got);
    assert got == ReceivedAll(c, rec);
  }

  /** Nothing is skipped and each field is read back under the name it is written under. */
  predicate SymmetricFields(fields: seq<Field>) {
    && (forall i :: 0 <= i < |fields| ==> !fields[i].attrs.skipSerializing && !fields[i].attrs.skipDeserializing)
    && (forall i :: 0 <= i < |fields| ==> SerializeName(fields[i].attrs.name) == DeserializeName(fields[i].attrs.name))
  }

  /** The written names are plain and distinct, and so are the field identifiers. */
  predicate DistinctFields(fields: seq<Field>) {
    && (forall i :: 0 <= i < |fields| ==> '.' !in SerializeName(fields[i].attrs.name))
    && (forall i, j :: 0 <= i < j < |fields| ==>
          SerializeName(fields[i].attrs.name) != SerializeName(fields[j].attrs.name) && FieldIdent(fields[i]) != FieldIdent(fields[j]))
  }

  /** No field's aliases take another field's written name. */
  predicate AliasesApart(fields: seq<Field>) {
    forall i, j :: 0 <= i < |fields| && 0 <= j < |fields| && SerializeName(fields[j].attrs.name) in DeserializeAliases(fields[i].attrs.name) ==> i == j
  }

  /**
   * The conditions on the fields of a struct under which its derived codec
   * round-trips: nothing is skipped, each field is read back under the name
   * it is written under, the written names are plain and distinct, and no
   * field's aliases take another field's name.
   */
  predicate FaithfulFields(fields: seq<Field>) {
    SymmetricFields(fields) && DistinctFields(fields) && AliasesApart(fields)
  }

  lemma DerivedCounterparts(c: Codec, fields: seq<Field>)
    requires SymmetricFields(fields)
    requires c.serialized == WritesOf(fields) && c.deserialized == ReadsOf(fields)
    ensures forall r :: 0 <= r < |c.deserialized| ==> HasCounterpart(c, r)
  {
    forall r | 0 <= r < |c.deserialized|
      ensures HasCounterpart(c, r)
    {
      assert c.serialized[r].key == DeserializeName(fields[r].attrs.name);
    }
  }

  lemma DerivedKeysApart(c: Codec, fields: seq<Field>)
    requires SymmetricFields(fields) && AliasesApart(fields)
    requires c.serialized == WritesOf(fields) && c.deserialized == ReadsOf(fields)
    ensures forall r, j :: 0 <= r < |c.deserialized| && 0 <= j < |c.serialized| && c.serialized[j].key in c.deserialized[r].possibleKeys ==>
          c.serialized[j].ident == c.deserialized[r].ident
  {
    forall r, j | 0 <= r < |c.deserialized| && 0 <= j < |c.serialized| && c.serialized[j].key in c.deserialized[r].possibleKeys
      ensures c.serialized[j].ident == c.deserialized[r].ident
    {
      assert SerializeName(fields[j].attrs.name) in DeserializeAliases(fields[r].attrs.name);
    }
  }

  lemma DerivedKeysDistinct(c: Codec, fields: seq<Field>)
    requires SymmetricFields(fields) && DistinctFields(fields)
    requires c.serialized == WritesOf(fields)
    ensures DistinctPlainKeys(c.serialized)
    ensures forall i, j :: 0 <= i < j < |c.serialized| ==> c.serialized[i].ident != c.serialized[j].ident
  {
  }

  /** Under those conditions the codec derived for the struct meets the round-trip conditions. */
  lemma DerivedCodecRoundTrips(typeName: string, fields: seq<Field>)
    requires FaithfulFields(fields)
    ensures RoundTrips(Codec(typeName, WritesOf(fields), ReadsOf(fields)))
  {
    var c := Codec(typeName, WritesOf(fields), ReadsOf(fields));
    DerivedCounterparts(c, fields);
    DerivedKeysApart(c, fields);
    DerivedKeysDistinct(c, fields);
  }

  /** A field of two pieces is read back as the list of both. */
  lemma PiecesBecomeList(key: string, a: Utf8.Bytes, b: Utf8.Bytes)
    requires '.' !in key
    ensures FoldPairs(map[], DataItems(FieldArgs(key, [a, b]))) == Ok(map[key := Bulk([Data(a), Data(b)])])
  {
    FoldField(map[], key, [a, b]);
    assert DataItems([a, b]) == [Data(a), Data(b)];
  }

  /** One written pair read back on its own. */
  lemma FoldOnePair(fm: map<string, Value>, key: string, x: Utf8.Bytes)
    ensures FoldPairs(fm, DataItems([Utf8.Encode(key), x])) == Ok(Insert(fm, key, Data(x)))
  {
    FoldPairsCons(fm, key, x, []);
    assert [Utf8.Encode(key), x] + [] == [Utf8.Encode(key), x];
  }

  /**
   * The index after the dot is not read: two pieces are listed in the order
   * they arrive, whatever their indices say.
   */
  lemma PieceIndexIgnored(key: string, i: nat, j: nat, x: Value, y: Value)
    requires '.' !in key
    ensures Insert(Insert(map[], PieceKey(key, i), x), PieceKey(key, j), y) == map[key := Bulk([x, y])]
  {
    InsertPiece(map[], key, i, x);
    var fm1: map<string, Value> := map[key := Bulk([x])];
    assert Insert(map[], PieceKey(key, i), x) == fm1;
    InsertPiece(fm1, key, j, y);
    assert fm1[key].items + [y] == [x, y];
  }

  /** A reply that is not a bulk of pairs is refused. */
  lemma OddReplyRefused(c: Codec, x: Utf8.Bytes)
    ensures Decode(c, Bulk([Data(x)])) == Err(RedisError(TypeError, NotBulkPairsMessage, None))
    ensures Decode(c, Data(x)) == Err(RedisError(TypeError, NotBulkPairsMessage, None))
  {
  }
}
