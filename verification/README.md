# redis-om derive macros, modelled in Dafny

This project models the compile-time side of redis-om: the procedural macros
that read a Rust type's `#[redis(...)]` attributes and generate its Redis
implementations. The macro input is a syntax tree. The model gives it a small
algebraic form: paths, types, literals and meta items, in module `Syntax`.
Each macro stage is a pure function over that tree. Diagnostics are a list
of messages threaded through every stage; the crate calls this list `Ctx`.
A panic (`unwrap`, `expect`, `panic!`) becomes an explicit `Panicked`
outcome, so the proofs can say when each macro panics and with what message.

The stages, in the order the crate runs them:

- Attribute accumulators and symbols (`Accumulators`, `Symbols`, `Names`,
  `Lits`, `MetaLists`): `Attr`, `BoolAttr` and `VecAttr` with their
  duplicate reports, and the serialize/deserialize name pair with its sorted
  alias set.
- Field, variant and container attribute parsers (`AttrWalk`, `NameItems`,
  `RenameAllItems`, `FieldAttrs`, `VariantAttrs`, `ContainerAttrs`). Each one
  walks the nested items of every `#[redis(...)]` attribute, and `rename_all`
  is then applied by rule.
- The container builder (`Containers`): styles, fields, variants, the
  union refusal, and the choice of primary key.
- The type classifier (`TypeExt`): `Option`, list collections, numeric and
  primitive-copy types, and the inner type.
- The flat wire codec of structs (`StructCodec`) and the unit-enum codec
  (`EnumCodec`), over the redis `Value` reply (`Wire`, `Utf8`).
- The RediSearch schema text for hash models, JSON models and
  `RedisSearchModel` (`Schema`), and the primary-key resolver of
  `RedisModel` (`RedisModels`).
- The macro entry points of `lib.rs` (`Macros`): how generated code, compile
  errors and panics leave the macro.
- The older `AttributeMap` path (`AttributeMaps`, `Casing`, `LegacyValue`),
  kept as its own model: `util::parse::attributes`, `util::string`,
  `data_struct.rs` and `data_enum.rs`.

`Golden` replays the repository's own schema and model tests against the
model. `GoldenParse` builds the `Address` struct of the search-model test
from its `#[redis(...)]` attributes as written, through the attribute
parsers and `Container::new`, and reaches the schema text that test expects.

The core's collaborators are parameters of the model:

- `Collaborators.Env` holds `RenameRule::from_str` and `apply_to_*`,
  `Derive::from_lit_str` and the expression-path parser.
- `Casing.Heck` holds the four `heck` case conversions.
- The per-field `ToRedisArgs` / `FromRedisValue` encodings are the byte
  pieces and `Value`s the codec is given.

Where the code and its description disagree, the model follows the code:

- `value/enum.rs:9-17` reports only the first non-unit variant, because
  `Iterator::all` stops there.
- `Name::from_attrs` keeps deserialize aliases sorted and deduplicated (a
  `BTreeSet`), not in the order given.
- `BoolAttr::set_true` reports a second occurrence as a duplicate. It is not
  idempotent.
- `container/attr.rs:109` matches a `KEY` symbol that `symbol.rs` does not
  declare. It is modelled as the word `key`.

## Model

| member | source | states |
|---|---|---|
| Accumulators.Set | macros/src/ast/common/attr.rs:22-32 | the first value set is kept; a later one leaves the attribute unchanged and adds exactly one duplicate report naming the attribute |
| Accumulators.SetOpt | macros/src/ast/common/attr.rs:34-38 | `None` changes nothing and reports nothing; `Some(v)` behaves as `set(v)` |
| Accumulators.SetIfNone | macros/src/ast/common/attr.rs:40-44 | fills an empty attribute and never replaces a value already there |
| Accumulators.SetAllKeepsFirst | macros/src/ast/common/attr.rs:22-32 | setting n values keeps the first and reports exactly n-1 duplicates |
| Accumulators.SetTrue | macros/src/ast/common/attr.rs:69-71 | the flag is on afterwards; setting an already-set flag adds one duplicate report |
| Accumulators.SetTrueTimesCounts | macros/src/ast/common/attr.rs:65-75 | a flag given n times reads true iff n >= 1 and yields n-1 duplicate reports |
| Accumulators.Insert | macros/src/ast/common/attr.rs:99-104 | appends the value at the end and keeps earlier values in place |
| Accumulators.InsertAllInOrder | macros/src/ast/common/attr.rs:99-104 | inserting a sequence leaves the values in insertion order |
| Accumulators.AtMostOne | macros/src/ast/common/attr.rs:106-117 | fails with one "at most one" report iff more than one value was given; otherwise the single value or none |
| Symbols.PathIs | macros/src/ast/common/symbol.rs:28-50 | a path equals a symbol iff it is the single plain identifier of that symbol |
| Symbols.Display | macros/src/ast/common/symbol.rs:52-56 | the displayed text is the identifier the symbol matches |
| Symbols.SkipIsSkipSerializing | macros/src/ast/common/symbol.rs:23-24 | `SKIP` and `SKIP_SERIALIZING` are the same symbol, `skip_serializing` |
| Symbols.BareSkipMatchesNoSymbol | macros/src/ast/common/symbol.rs:9-25 | no declared symbol matches the bare word `skip` |
| Symbols.QualifiedPathMatchesNoSymbol | macros/src/ast/common/symbol.rs:40-50 | a path with a leading `::`, several segments or generic arguments matches no symbol |
| Names.SortedSet | macros/src/ast/common/name.rs:19-28 | the alias set is strictly sorted and holds exactly the given aliases |
| Names.SortedUnique | macros/src/ast/common/name.rs:19-28 | two strictly sorted sequences with the same members are equal, so the alias order is canonical |
| Names.FromAttrs | macros/src/ast/common/name.rs:13-42 | each side is the explicit rename when given (and marked renamed), else the source name; the alias set is sorted and contains exactly the aliases given |
| Names.DeserializeAliases | macros/src/ast/common/name.rs:54-61 | the accepted names are the aliases plus the deserialize name, without duplicates |
| Names.ResolvedAliasesAreDistinct | macros/src/ast/common/name.rs:13-61 | a resolved name accepts its deserialize name and never lists a name twice |
| Lits.ToString | macros/src/ext/lit_ext.rs:25-30 | a literal has a string value iff it is a string literal, and that value is its text |
| Lits.ToLitStr0 | macros/src/ext/lit_ext.rs:32-43 | a string literal gives its text with no report; any other literal is refused with one report naming the attribute and meta item |
| Lits.ToLitStr | macros/src/ext/lit_ext.rs:45-47 | as `to_lit_str_0` with the one name used for both |
| Lits.DebugString | macros/src/ext/lit_ext.rs:49-54 | the `{:?}` rendering is quoted, at least two characters longer than the text, and what lies between the quotes reads back as the text |
| Lits.HexValueOfHex | macros/src/ext/lit_ext.rs:49-54 | the hexadecimal digits of a `\u{..}` escape name the number they were written from |
| Lits.UnescapeUnicode | macros/src/ext/lit_ext.rs:49-54 | a control character escaped as `\u{..}` reads back as itself |
| Lits.BellEscaped | macros/src/ext/lit_ext.rs:49-54 | `"a\u{7}"`, the bell character, is rendered as `"a\\u{7}"` |
| Lits.UnescapeEscape | macros/src/ext/lit_ext.rs:49-54 | the `{:?}` escaping loses nothing: unescaping it gives back the text |
| Lits.ToType | macros/src/ext/lit_ext.rs:49-54 | a string literal is accepted iff the collaborator parses it; a non-string or a failed parse adds exactly one report |
| MetaLists.GetSerAndDe | macros/src/ext/metalist_ext.rs:36-73 | succeeds iff every item is `serialize = ..` or `deserialize = ..`; the two lists hold those values in order; a malformed list stops with one malformed report after the literal reports of the items before it |
| MetaLists.GetSerAndDeFromValues | macros/src/ext/metalist_ext.rs:36-73 | the loop appends each side's values in order to the lists it starts from, and succeeds iff all items are well formed |
| MetaLists.GetSerAndDeFromDiags | macros/src/ext/metalist_ext.rs:36-73 | the loop's reports are the literal reports of the items before the first malformed one, then one malformed report |
| MetaLists.GetRenames | macros/src/ext/metalist_ext.rs:15-23 | succeeds iff well formed with at most one value per side, and gives the first of each |
| MetaLists.GetMultipleRenames | macros/src/ext/metalist_ext.rs:25-33 | at most one serialize name, any number of deserialize names, in order |
| AttrWalk.RedisOnly | macros/src/ast/field/attr.rs:56-76 | only `#[redis(...)]` attributes are walked |
| AttrWalk.WalkAttrsState | macros/src/ast/field/attr.rs:56-76 | the state after walking the attributes is the fold of the step over all nested redis items in order |
| AttrWalk.WalkAttrsIgnoresOthers | macros/src/ast/field/attr.rs:56-76 | attributes other than `redis` change neither the state nor the reports |
| AttrWalk.WalkAttrsExtends | macros/src/ast/field/attr.rs:56-76 | walking only appends reports; earlier ones are kept |
| AttrWalk.FoldStateAppend | macros/src/ast/field/attr.rs:56-76 | folding two item lists one after the other equals folding their concatenation |
| NameItems.FoldNamesFirstWins | macros/src/ast/field/attr.rs:79-113 | the serialize name, deserialize name and default are each the first one given across all items |
| NameItems.FoldNamesAliases | macros/src/ast/field/attr.rs:99-103 | aliases accumulate in the order given |
| NameItems.AddDeserializeNames | macros/src/ast/field/attr.rs:88-96 | `rename(deserialize = ..)` lists become aliases, and the first sets the deserialize name only if it is unset |
| RenameAllItems.RenameAllStepRules | macros/src/ast/variant/attr.rs:107-135 | one `rename_all` item sets each side's rule only if that side has none yet |
| RenameAllItems.FoldRulesFirstWins | macros/src/ast/container/attr.rs:125-153 | across all items, each side's rule is the first known rule given |
| RenameAllItems.FoldRulesResolved | macros/src/ast/container/attr.rs:174-184 | the resolved rules are the first known rule of each side, or no rule |
| RenameAllItems.UnknownRuleReported | macros/src/ast/container/attr.rs:125-135 | an unknown rule name changes nothing and adds one report naming it |
| RenameAllItems.RepeatedRuleReportedTwice | macros/src/ast/container/attr.rs:125-135 | a second `rename_all = ".."` keeps both sides and reports a duplicate for each |
| FieldAttrs.FieldSourceName | macros/src/ast/field/attr.rs:38-41 | a named field's source name is its identifier with leading `r#` removed; an unnamed field's is its decimal position |
| FieldAttrs.FlagValueFormsRejected | macros/src/ast/field/attr.rs:116-142 | `primary_key`, `index`, `sortable` and `full_text_search` given with `= value` change nothing and add their own report |
| FieldAttrs.UnknownWordOnField | macros/src/ast/field/attr.rs:149-158 | an unknown word adds one report naming it and changes nothing |
| FieldAttrs.FieldFold | macros/src/ast/field/attr.rs:56-163 | each flag is set iff its word appears; names come from the name items; the skip flags stay off |
| FieldAttrs.FromAst | macros/src/ast/field/attr.rs:31-177 | the field attributes are those of its redis items over its source name, and earlier reports are kept |
| FieldAttrs.FieldAttrOfItemsMeaning | macros/src/ast/field/attr.rs:31-177 | each flag iff its word is present; each name is the first explicit one, else the source name; aliases are exactly those given; default is the first given |
| FieldAttrs.RenameByRules | macros/src/ast/field/attr.rs:179-186 | a side not renamed explicitly takes the container's rule; an explicit name, the aliases and every other attribute stay as they are |
| FieldAttrs.RenameWithoutRules | macros/src/ast/field/attr.rs:179-186 | with no rules, renaming changes nothing |
| FieldAttrs.ExplicitNamesSurviveRules | macros/src/ast/field/attr.rs:179-186 | a field renamed on both sides ignores `rename_all` |
| VariantAttrs.VariantFold | macros/src/ast/variant/attr.rs:31-151 | `skip` sets both skip flags, `skip_deserializing` only one; names and rules come from their items |
| VariantAttrs.SkipThenSkipDeserializing | macros/src/ast/variant/attr.rs:91-99 | `skip` followed by `skip_deserializing` reports the second as a duplicate |
| VariantAttrs.FromAst | macros/src/ast/variant/attr.rs:21-168 | the variant attributes are those of its redis items over the unraw identifier, and earlier reports are kept |
| VariantAttrs.VariantAttrOfItemsMeaning | macros/src/ast/variant/attr.rs:154-167 | skip flags iff their words are present; first explicit names, else the identifier; aliases are exactly those given; the variant's own `rename_all` rules |
| VariantAttrs.RenameByRules | macros/src/ast/variant/attr.rs:170-177 | a side not renamed explicitly takes the container's rule; everything else is unchanged |
| VariantAttrs.RenameWithoutRules | macros/src/ast/variant/attr.rs:170-177 | with no rules, renaming changes nothing |
| ContainerAttrs.ModelTypeFromStr | macros/src/ast/container/attr.rs:119-122 | a model type is read iff the collaborator knows it; otherwise one report naming it |
| ContainerAttrs.ContainerFold | macros/src/ast/container/attr.rs:36-171 | prefix, primary key and default are each the first given (default only on a struct with named fields); the rules come from the `rename_all` items |
| ContainerAttrs.DefaultNeedsNamedFields | macros/src/ast/container/attr.rs:59-101 | `default` and `default = ".."` on anything but a struct with named fields are refused with their report |
| ContainerAttrs.NonStringPrefixIgnored | macros/src/ast/container/attr.rs:104-116 | a non-string `prefix_key`, `key` or `primary_key` value is dropped without a report |
| ContainerAttrs.KeyDuplicatesPrefixKey | macros/src/ast/container/attr.rs:104-111 | `key` writes the same accumulator as `prefix_key`, so giving both is a duplicate |
| ContainerAttrs.FromAst | macros/src/ast/container/attr.rs:28-185 | the container attributes are those of its redis items; no flatten yet; earlier reports kept |
| ContainerAttrs.ContainerAttrOfItemsMeaning | macros/src/ast/container/attr.rs:174-184 | the prefix is the first given, else the type name; the primary key is the first given, else `id`; the rules are the first known of each side |
| ContainerAttrs.MarkHasFlatten | macros/src/ast/container/attr.rs:187-189 | sets the flatten mark and nothing else |
| Containers.ParsedFields | macros/src/ast/container/mod.rs:123-143 | one field per definition, in order, with its position, type and parsed attributes |
| Containers.FindId | macros/src/ast/container/mod.rs:144-155 | finds the first field whose serialized name is `id`, or none if there is none |
| Containers.DesignatePrimaryKey | macros/src/ast/container/mod.rs:144-155 | annotated keys are kept; only when none is annotated, the first field named `id` becomes the key; nothing else changes |
| Containers.PrimaryKeyDiagnostics | macros/src/ast/container/mod.rs:144-155 | a report is made iff no field ends up as primary key |
| Containers.FieldsFromAst | macros/src/ast/container/mod.rs:123-157 | the fields with the primary key designated, and the field reports followed by the missing-key report |
| Containers.FieldsOfPrimaryKey | macros/src/ast/container/mod.rs:123-157 | a primary key exists iff some field is annotated or serializes as `id`, and then no report is made |
| Containers.AnnotatedPrimaryKeysKept | macros/src/ast/container/mod.rs:144-155 | several annotated keys are all kept and not reported |
| Containers.AutoDesignationPicksOne | macros/src/ast/container/mod.rs:144-155 | without annotations, at most one field is designated |
| Containers.TupleFieldsNeedAnnotation | macros/src/ast/container/mod.rs:123-157 | a tuple struct with no annotated or renamed key always reports the missing primary key |
| Containers.StructOf | macros/src/ast/container/mod.rs:100-121 | named fields give the struct style, one unnamed field the newtype style, other unnamed counts the tuple style, no fields the unit style |
| Containers.VariantsOf | macros/src/ast/container/mod.rs:78-98 | one variant per definition, in order |
| Containers.RenameFields | macros/src/ast/container/mod.rs:39-64 | every field is renamed by the rules and nothing else about it changes |
| Containers.RenamingKeepsFlatten | macros/src/ast/container/mod.rs:39-64 | renaming never changes a field's flatten or primary-key flag |
| Containers.DataOf | macros/src/ast/container/mod.rs:24-75 | struct fields are renamed by the container's rules; enum variants by the container's rules, and their fields by each variant's own rules |
| Containers.New | macros/src/ast/container/mod.rs:24-75 | a union is refused with one report; otherwise the container's name, data with rules applied, attributes marked for flatten, and all parser reports |
| Containers.RenamedFieldName | macros/src/ast/container/mod.rs:39-64 | a struct field's wire name is its explicit rename, else the rule applied to its source name |
| Containers.StructFieldsUseContainerRules | macros/src/ast/container/mod.rs:39-52 | struct fields are renamed by the container's `rename_all` |
| Containers.VariantFieldsUseVariantRules | macros/src/ast/container/mod.rs:53-64 | the fields of a variant are renamed by that variant's own `rename_all`, not the container's |
| TypeExt.TypePath | macros/src/ext/type_ext.rs:44-49 | a type has a path iff it is a path type |
| TypeExt.LastSegment | macros/src/ext/type_ext.rs:44-64 | the last segment of a non-empty path type |
| TypeExt.Arguments | macros/src/ext/type_ext.rs:51-64 | the angle-bracketed arguments of the last segment, if any |
| TypeExt.GetInnerType | macros/src/ext/type_ext.rs:186-196 | the first type argument of the first segment, if it has one |
| TypeExt.IsIdent | macros/src/ext/type_ext.rs:30-42 | compares the last segment, looking through `Option`; panics exactly when an `Option` has no inner type on its first segment |
| TypeExt.ToAsRef | macros/src/ext/type_ext.rs:126-140 | an `Option<T>` becomes `Option<&T>`; any other type gives nothing |
| TypeExt.NumericIsPrimitiveCopy | macros/src/ext/type_ext.rs:70-109 | every numeric type is a primitive copy type |
| TypeExt.ClassesDisjoint | macros/src/ext/type_ext.rs:111-184 | no type is both an option and a list, an option and a number, or a list and a number |
| TypeExt.ToAsRefOfOption | macros/src/ext/type_ext.rs:126-140 | `Option<T>` becomes `Option<&T>`, which is still an option |
| TypeExt.IsIdentLooksThroughOption | macros/src/ext/type_ext.rs:30-42 | `Option<T>` is compared by T's last segment |
| TypeExt.ClassifierExamples | macros/src/ext/type_ext.rs:199-223 | `Vec<String>` and `HashSet<u32>` are lists, `i32` and `usize` numeric, and a bare `Vec` is no list |
| TypeExt.InnerTypeExamples | macros/src/ext/type_ext.rs:199-223 | the inner types of `Vec<u32>` and `HashSet<String>` are `u32` and `String` |
| TypeExt.QualifiedOptionPanics | macros/src/ext/type_ext.rs:30-42 | `std::option::Option<T>` is an option, and `is_ident` on it panics |
| TypeExt.LastInnerTypeAgrees | macros/src/ext/type_ext.rs:186-196 | on one-segment paths, reading the last segment's argument agrees with `get_inner_type` |
| TypeExt.ListInnerTypeExists | macros/src/ext/type_ext.rs:142-162 | every list collection with a type argument has an inner type when read from the segment that was classified |
| TypeExt.QualifiedListHasNoInnerType | macros/src/ext/type_ext.rs:142-196 | `std::vec::Vec<T>` is a list, yet `get_inner_type` finds nothing |
| TypeExt.IsIdentCorrected | macros/src/ext/type_ext.rs:30-42 | the corrected `is_ident` fails only for an option with no type argument |
| TypeExt.IsIdentCorrectedAgrees | macros/src/ext/type_ext.rs:30-42 | the corrected `is_ident` agrees with the original on one-segment paths and looks through a qualified `Option` |
| Strings.NatToString | macros/src/ast/field/attr.rs:40 | decimal digits with no leading zero |
| Strings.NatToStringValue | macros/src/ast/field/attr.rs:40 | the digits read back as the number |
| Strings.SplitOnce | macros/src/derive/value/struct.rs:117-130 | splits at the first `.`; none iff there is no `.` |
| Strings.SplitOnceOfJoined | macros/src/derive/value/struct.rs:117-130 | a key joined with `.` to a suffix splits back into the key and the suffix |
| Strings.TrimStartMatches | macros/src/ast/field/attr.rs:39 | strips whole leading copies of the pattern, and no copy is left at the front |
| Strings.Unraw | macros/src/ast/variant/attr.rs:156 | drops one leading `r#` and nothing else |
| Strings.Trim | macros/src/derive/json_model.rs:45-53 | removes exactly the surrounding whitespace |
| Utf8.DecodeEncode | macros/src/derive/value/enum.rs:90-91 | decoding the UTF-8 encoding of a text gives back the text |
| Utf8.EncodeInjective | macros/src/derive/value/enum.rs:90-91 | distinct texts have distinct encodings |
| Utf8.InvalidByteRejected | macros/src/derive/value/enum.rs:90-91 | a byte that starts no UTF-8 sequence is refused |
| Wire.StringOf | macros/src/derive/value/enum.rs:90-91 | bulk data reads as its UTF-8 text and a status as its text; nil, integers and arrays are type errors described as "Response was of incompatible type" |
| Wire.StringOfWritten | macros/src/derive/value/enum.rs:90-91 | a text written as bulk data reads back as itself |
| StructCodec.WritesOf | macros/src/derive/value/struct.rs:23-49 | without skipped fields, one write per field, in order, under its serialize name |
| StructCodec.ReadsOf | macros/src/derive/value/struct.rs:85-102 | without skipped fields, one read per field, in order, accepting its aliases and deserialize name |
| StructCodec.WritesOfMembers | macros/src/derive/value/struct.rs:33 | a write is generated iff it belongs to a field that is not `skip_serializing` |
| StructCodec.ReadsOfMembers | macros/src/derive/value/struct.rs:85 | a read is generated iff it belongs to a field that is not `skip_deserializing` |
| StructCodec.Derive | macros/src/derive/value/struct.rs:8-106 | any style but named fields is refused with one report naming the style; a struct with named fields panics iff some written or read field is unnamed, or some read field's identifier holds `#`; otherwise a codec of its writes and reads |
| StructCodec.KeysConstNameAccepted | macros/src/derive/value/struct.rs:88-89 | the `_POSSIBLE_KEYS` constant named from the displayed identifier is a valid identifier iff the field's identifier has no `#`, so a raw identifier is refused |
| StructCodec.RawFieldPanics | macros/src/derive/value/struct.rs:83-89 | with every field named, the first read field whose identifier is raw makes the derive panic with the refusal of its constant's name |
| StructCodec.RawTypeFieldPanics | macros/src/derive/value/struct.rs:88-89 | a struct with the one field `r#type` panics on the name `R#TYPE_POSSIBLE_KEYS` |
| StructCodec.RawTypeConstNameCorrected | macros/src/derive/value/struct.rs:88-89 | naming the constant from the unraw identifier gives `TYPE_POSSIBLE_KEYS` for `r#type` |
| StructCodec.CorrectedRawFieldsBuild | macros/src/derive/value/struct.rs:83-106 | naming the constants from the unraw identifiers, a struct whose fields all carry identifiers with `#` only in a leading `r#` builds its codec, raw identifiers included |
| StructCodec.DeriveCorrectedAgrees | macros/src/derive/value/struct.rs:83-106 | where no identifier holds `#`, the corrected derive gives exactly what the derive as written gives |
| StructCodec.FieldArgs | macros/src/derive/value/struct.rs:39-49 | one encoded piece is written under the plain key; other counts are written as indexed pairs |
| StructCodec.Encode | macros/src/derive/value/struct.rs:23-68 | the written arguments alternate key and value: each key is a serialized field's key, or `key.n` for its `n`-th piece when it has other than one, and the value after it is that piece |
| StructCodec.Lookup | macros/src/derive/value/struct.rs:90-102 | the value under the first possible key that is present, whatever its position; nil if none is present |
| StructCodec.Decode | macros/src/derive/value/struct.rs:70-145 | anything but an array of even length is refused with the type error; an array fails, with a type error, iff some key is not a string; otherwise each read field receives the value under its first present possible key in the map the pairs build |
| StructCodec.FoldPairs | macros/src/derive/value/struct.rs:117-130 | the pairs are read into the map unless some key is not a string, which fails with a type error |
| StructCodec.FoldWrites | macros/src/derive/value/struct.rs:117-130 | folding the written pairs stores each field's pieces under its key, as one value or as a list |
| StructCodec.StoredAllLookup | macros/src/derive/value/struct.rs:117-130 | after the fold a key holds the value of the field written under it, and other keys are untouched |
| StructCodec.RoundTrip | macros/src/derive/value/struct.rs:23-145 | decoding what a matching codec encoded gives each read field the value its field wrote |
| StructCodec.DerivedCodecRoundTrips | macros/src/derive/value/struct.rs:23-145 | a codec derived from fields that are not skipped, are read under the name they are written under, have distinct plain names and no clashing aliases, reads back every write |
| StructCodec.PiecesBecomeList | macros/src/derive/value/struct.rs:117-130 | two pieces of one field come back as one list, in order |
| StructCodec.PieceIndexIgnored | macros/src/derive/value/struct.rs:117-130 | the index after the `.` is not read: pieces are appended in arrival order |
| StructCodec.OddReplyRefused | macros/src/derive/value/struct.rs:113-114 | an odd-length array and a non-array reply are both refused |
| EnumCodec.CheckUnits | macros/src/derive/value/enum.rs:9-17 | accepted iff every variant is a unit; otherwise exactly one report |
| EnumCodec.Derive | macros/src/derive/value/enum.rs:8-26 | a codec iff every variant is a unit, built from the written arms and accepted cases |
| EnumCodec.ArmsOfMembers | macros/src/derive/value/enum.rs:36-41 | an arm exists iff its variant is not `skip_serializing`, and it writes the serialize name |
| EnumCodec.CasesOfMembers | macros/src/derive/value/enum.rs:63-75 | a case exists iff its variant is not `skip_deserializing` and the tag is one of its accepted names |
| EnumCodec.Encode | macros/src/derive/value/enum.rs:28-50 | a variant is written iff it has an arm, and what is written is the UTF-8 of the first such arm's tag |
| EnumCodec.Decode | macros/src/derive/value/enum.rs:86-99 | a non-data reply and invalid UTF-8 are refused; text is accepted iff some case has it as tag, selecting the variant of the first such case; other text is refused listing every tag |
| EnumCodec.DecodeText | macros/src/derive/value/enum.rs:77-96 | a text is accepted iff it is a case's tag; otherwise the error lists every tag joined by `, ` |
| EnumCodec.RoundTrip | macros/src/derive/value/enum.rs:28-100 | decoding a written variant gives the same variant when the codec's tags agree |
| EnumCodec.DerivedCodecRoundTrips | macros/src/derive/value/enum.rs:28-100 | derived codecs whose tags belong to one variant each satisfy that agreement |
| EnumCodec.DerivedArmAt | macros/src/derive/value/enum.rs:28-100 | each arm of such a codec writes its variant's tag, and every case that accepts that tag reads back the same variant |
| EnumCodec.DecodedVariantIsRead | macros/src/derive/value/enum.rs:63-75 | a decoded variant is never one marked `skip_deserializing` |
| EnumCodec.EncodedIffWritten | macros/src/derive/value/enum.rs:36-41 | a variant is written iff it is not `skip_serializing` |
| EnumCodec.FirstAcceptingVariantWins | macros/src/derive/value/enum.rs:93-96 | when two variants accept one tag, the first in declaration order is read |
| Schema.LeafClause | macros/src/derive/hash_model.rs:89-112 | a number is `NUMERIC`; a `String` is full text when `full_text_search` is set and a `TAG` otherwise; any other type is a `TAG`; the `is_ident` panic propagates |
| Schema.ClosedFormStep | macros/src/derive/hash_model.rs:89-112 | a list's clause is its inner type's clause, with `SORTABLE` added again if sortable |
| Schema.SchemaForTypeShape | macros/src/derive/hash_model.rs:89-112 | a type's clause is its innermost element type's clause; when sortable, one `SORTABLE` follows for each list level and one more for the element |
| Schema.SchemaForField | macros/src/derive/hash_model.rs:69-87 | a primary key is a `TAG`; an indexed field gets its type's clause; an unindexed field gives nothing unless it is a list, whose missing inner type panics and which otherwise gets the clause of its inner type (hash) or of the list type itself (JSON, macros/src/derive/json_model.rs:74-80) |
| Schema.FieldClauses | macros/src/derive/hash_model.rs:52-59 | succeeds iff every field's clause does, one clause per field in order |
| Schema.HashSchema | macros/src/derive/hash_model.rs:36-66 | enums and non-struct styles are refused with one report; otherwise `ON HASH PREFIX 1 <prefix> SCHEMA` and the clauses |
| Schema.JsonSchema | macros/src/derive/json_model.rs:29-60 | the JSON counterpart: refusals as for hashes; otherwise `ON JSON PREFIX 1 <prefix> SCHEMA` and the trimmed clauses |
| Schema.SearchSchema | macros/src/derive/redissearch_model/struct.rs:10-61 | enums are refused; a field clause panic happens before the style check; otherwise the hash schema |
| Schema.SchemaForTypeMessages | macros/src/derive/hash_model.rs:89-112 | the clause does not depend on the panic message used, only whether it panics |
| Schema.SearchSchemaIsHashSchema | macros/src/derive/redissearch_model/struct.rs:23-60 | for a struct with named fields the search schema is exactly the hash schema |
| Schema.RejectionsAreReported | macros/src/derive/hash_model.rs:36-66 | every refusal of the three generators adds exactly one report |
| Schema.SortableListTwice | macros/src/derive/hash_model.rs:89-112 | an indexed, sortable `Vec<u32>` gets `SORTABLE` twice |
| Schema.UnindexedSortableList | macros/src/derive/json_model.rs:63-84 | an unindexed sortable `Vec<u32>` gets one `SORTABLE` in a hash schema but two in a JSON schema, because the JSON path passes the list type itself |
| Schema.CorrectedSchemaAgrees | macros/src/derive/hash_model.rs:89-112 | the corrected clause, which reads each list's element from its last segment, is the clause as written whenever first and last segments give the same element |
| Schema.QualifiedListCorrected | macros/src/derive/hash_model.rs:89-112 | corrected, `std::vec::Vec<T>` gets exactly the clause of `Vec<T>`: the clause of `T` with the list's `SORTABLE` |
| Golden.AddressSearchSchema | lib/tests/redissearch_model.rs:6-37 | the model produces the tested schema text for `Address` |
| Golden.MemberJsonSchema | lib/tests/json_model_sync.rs:179-213 | the model produces the tested JSON schema text for `Member` |
| Golden.MemberHashSchemaKeepsSpace | macros/src/derive/hash_model.rs:52-59 | the hash schema, unlike the JSON one, is not trimmed and ends with a space |
| Golden.AccountModel | lib/tests/redis_model.rs:13-21 | `Account` gets prefix `Account` and key `id`, and setting the key replaces only `id` |
| Golden.DetailsModel | lib/tests/redis_model.rs:36-44 | `Details` gets prefix `info_details` and key `pk` |
| Golden.QualifiedListPanics | macros/src/derive/hash_model.rs:69-87 | a field typed `std::vec::Vec<T>` makes every schema generator panic |
| Golden.IdClause | macros/src/derive/hash_model.rs:69-87 | an indexed `String` field gives one `TAG` clause under its serialize name |
| GoldenParse.FlagsParsed | macros/src/ast/field/attr.rs:31-177 | the bare keywords `index`, `sortable` and `full_text_search` set exactly their flags and nothing else: no rename, alias, default or key |
| GoldenParse.AddressParsed | lib/tests/redissearch_model.rs:10-21 | the fields of `Address` as written parse to `id`, `a`, `b`, `c`, `d`, all indexed, `b` full-text, `c` sortable |
| GoldenParse.AddressFieldsBuilt | macros/src/ast/container/mod.rs:123-157 | with no annotated key, `fields_from_ast` makes `id` the primary key of `Address` and reports nothing |
| GoldenParse.AddressContainerAttrs | macros/src/ast/container/attr.rs:28-185 | `model_type = "HashModel"` is accepted; `Address` gets prefix `Address`, key `id`, no default and no rules, and `allow` is ignored |
| GoldenParse.AddressBuilt | macros/src/ast/container/mod.rs:24-75 | `Container::new` builds `Address` into the container the golden schema test uses, with no report |
| GoldenParse.AddressSchemaFromSource | lib/tests/redissearch_model.rs:6-37 | the container built from the attributes as written has the search schema the test expects |
| RedisModels.FirstPrimaryKey | macros/src/derive/redis_model/struct.rs:18-21 | the first field flagged `primary_key`, or none iff no field is flagged |
| RedisModels.PkIdent | macros/src/derive/redis_model/struct.rs:18-21 | the identifier of the first flagged field, panicking if it is unnamed; `id` when none is flagged |
| RedisModels.Derive | macros/src/derive/redis_model/struct.rs:6-51 | enums and non-struct styles are refused; otherwise generated iff the key identifier names a field; the prefix is the container's |
| RedisModels.GetPk | macros/src/derive/redis_model/struct.rs:29-43 | the key read is one of the record's values |
| RedisModels.SetPk | macros/src/derive/redis_model/struct.rs:29-43 | only the key field changes |
| RedisModels.GetAfterSet | macros/src/derive/redis_model/struct.rs:29-43 | reading the key after setting it gives the value set |
| RedisModels.SetPkLaws | macros/src/derive/redis_model/struct.rs:29-43 | setting the current key changes nothing; the last of two settings wins |
| RedisModels.DerivedPrefix | macros/src/derive/redis_model/struct.rs:29-43 | the implementation's prefix is the container's and its type is the container's |
| RedisModels.DerivedKeyIsAField | macros/src/derive/redis_model/struct.rs:18-27 | the key is a field: the first flagged, or `id` when none is flagged |
| Macros.ValueDerive | macros/src/lib.rs:106-112 | structs go to the struct codec and enums to the enum codec; it panics iff the struct codec does: a struct with named fields and an unnamed or raw-identifier field it reads |
| Macros.HashModelDerive | macros/src/derive/hash_model.rs:10-31 | the value codec, then the model, then the hash schema; the first failure stops the chain with its reports or panic |
| Macros.JsonModelDerive | macros/src/derive/json_model.rs:10-24 | the model, then the JSON schema; the first failure stops the chain |
| Macros.HashModelReports | macros/src/derive/hash_model.rs:10-31 | the chain only appends reports, and a refusal always leaves at least one new report |
| Macros.IntoStream | macros/src/lib.rs:117-125 | a panic escapes as a panic; any report becomes compile errors; generated code is emitted only when there are no reports |
| Macros.IntoContainer | macros/src/lib.rs:132-139 | a built container goes on with its reports; a union stops with non-empty compile errors |
| Macros.ReportedOutcome | macros/src/lib.rs:117-130 | for a generator that reports its refusals, the macro panics iff the generator did, errors iff there are reports, and emits iff it generated with none |
| Macros.ExpandOutcome | macros/src/lib.rs:117-139 | over container building and generation: panic iff generation panicked, emit iff it generated with no reports, errors never empty |
| Macros.HashModelMacroOutcome | macros/src/lib.rs:18-24 | the `HashModel` derive panics, emits or errors as its generator chain decides |
| Macros.JsonModelMacroOutcome | macros/src/lib.rs:29-35 | the `JsonModel` derive panics, emits or errors as its generator chain decides |
| Macros.SearchModelMacroOutcome | macros/src/lib.rs:49-58 | the `RedisSearchModel` derive panics, emits or errors as the search schema decides |
| Macros.RedisModelMacroPanics | macros/src/lib.rs:39-45 | the `RedisModel` derive can panic only with the unwrap of an unnamed key field |
| Macros.TransportValueMacroPanics | macros/src/lib.rs:106-112 | the `RedisTransportValue` derive panics iff the container builds and its struct codec panics |
| Macros.HashModelOfEnumRejected | macros/src/derive/hash_model.rs:10-31 | an enum is refused with exactly one report |
| AttributeMaps.CollectItems | macros/src/util/parse.rs:18-31 | succeeds iff every `name = value` item has a plain name and a string value; then the map is the pairs inserted in order; otherwise one of the two panics |
| AttributeMaps.Attributes | macros/src/util/parse.rs:9-36 | the map of all `name = value` pairs of the redis attributes, later ones replacing earlier; a panic iff some pair is unreadable |
| AttributeMaps.OverrideLookup | macros/src/util/parse.rs:29 | a name is in the map iff some pair gives it, and its value is the last pair's |
| AttributeMaps.OtherAttributesIgnored | macros/src/util/parse.rs:12-17 | non-redis attributes change nothing |
| AttributeMaps.WordsAndListsIgnored | macros/src/util/parse.rs:19 | bare words and nested lists are not read |
| Casing.ToLowercase | macros/src/util/string.rs:9 | each capital letter becomes the small letter at the same place in the alphabet, and every other character is kept |
| Casing.ToUppercase | macros/src/util/string.rs:10 | each small letter becomes the capital at the same place in the alphabet, and every other character is kept |
| Casing.TransformCasing | macros/src/util/string.rs:6-17 | no rule keeps the text; the six supported names convert; any other panics with the supported list |
| Casing.CaseMappingLaws | macros/src/util/string.rs:9-10 | lowering and raising are idempotent, and lowering undoes raising |
| LegacyValue.NamedWire | macros/src/derive/value/data_struct.rs:13-28 | a field without identifier panics; otherwise it succeeds iff its attributes are readable and either it is renamed or the casing is supported |
| LegacyValue.NamedWireRule | macros/src/derive/value/data_struct.rs:19-24 | the wire name is the last `rename` given, else the `rename_all` casing of the identifier, else the identifier |
| LegacyValue.DeriveStruct | macros/src/derive/value/data_struct.rs:8-58 | unit structs have no fields; named fields are written and read under their wire names in order; tuple fields under their positions, panicking on the unwrap |
| LegacyValue.TupleStructPanics | macros/src/derive/value/data_struct.rs:29-37 | a tuple struct with a field panics, since its fields have no identifier |
| LegacyValue.Decode | macros/src/derive/value/data_struct.rs:82-106 | a unit struct always decodes; otherwise anything but an even-length array is refused with the legacy message |
| LegacyValue.DecodeByWireName | macros/src/derive/value/data_struct.rs:92-104 | each field is read from exactly its wire name, nil if absent |
| LegacyValue.RoundTrip | macros/src/derive/value/data_struct.rs:61-106 | with distinct plain wire names, decoding the encoding gives every field its written value |
| LegacyValue.VariantTags | macros/src/derive/value/data_enum.rs:14-24 | every variant's tag is its identifier under the casing; an unsupported casing panics if there is a variant |
| LegacyValue.DeriveEnum | macros/src/derive/value/data_enum.rs:8-33 | a non-unit variant panics; otherwise each variant writes and accepts its tag |
| LegacyValue.EnumRoundTrip | macros/src/derive/value/data_enum.rs:29-54 | with distinct tags, a variant is written as its tag and read back as itself |
| LegacyValue.EnumRefusal | macros/src/derive/value/data_enum.rs:26 | an unknown text is refused with every tag joined by `, ` |
| LegacyValue.LowercaseTags | macros/src/derive/value/data_enum.rs:14-24 | under `rename_all = "lowercase"` no tag holds an uppercase letter |

## Left out

- Spans, token streams and the text of generated Rust: the model keeps what the generated code does, not how it is spelled.
- `Ctx::check` and error spans: reports are kept as messages in order, and `syn::Error` combination is not modelled.
- Getter/setter generation, `stream_model`, `derive/value/mod.rs` dispatch details, and everything under `lib/` that does I/O with a server: they are outside the macros' schema and codec logic.
- The `RenameRule` parser and case conversions, `Derive::from_lit_str`, expression-path parsing, and the `heck` conversions: their source is not part of this model, so they are parameters.
- The per-field `ToRedisArgs` / `FromRedisValue` calls: field values are given as the byte pieces or `Value` they produce.
- `Decode` error details (the `{:?}` / `{:#?}` rendering of the reply) are `None`: `Debug` of `redis::Value` is not part of this model.
- Wire.StringOf: the detail text the redis crate puts beside "Response was of incompatible type" (the reply's type) is `None`, because that text comes from `redis::Value`'s rendering.
- Lits.DebugString: C0 controls, DEL and C1 controls are escaped as `\u{..}`; other characters that Rust's Unicode tables mark as non-printable or grapheme-extending (such as U+0301 or U+00AD) are copied through, because those tables are not modelled.
- TypeExt.ToAsRef: only a type as first generic argument is borrowed; for a lifetime or const first argument, or an empty list, `quote!` puts `&` before something that is not a type, and the model leaves those arguments unchanged.
- StructCodec.Derive: the panic message is the wording of proc-macro2's `Ident::new` refusal; the compiler's own wording around it is not modelled.
- Casing.ToLowercase: models ASCII only; Rust's `to_lowercase` also maps non-ASCII letters.
- Casing.ToUppercase: models ASCII only, for the same reason.
- LegacyValue.DeriveStruct: the container's `AttributeMap` is a parameter, because the caller that builds it is not part of this model.
- `model_type`: the model knows the one model type `HashModel`, because the `Derive` enum's source is not part of this model.
- RedisModels.GetPk: a record is a map from field identifiers to values; field types are not modelled.
- StructCodec.Decode: the redis crate's status, integer and nil replies are all "not an array" and give the same error.

## Findings

| source | as written | input that shows it | evidently intended | confidence | as-written member | corrected member |
|---|---|---|---|---|---|---|
| macros/src/ext/type_ext.rs:30-42 | `is_ident` classifies by the LAST path segment but unwraps `get_inner_type`, which reads the FIRST segment | a field typed `std::option::Option<String>` | look through the option to `String` | not executed | TypeExt.QualifiedOptionPanics | TypeExt.IsIdentCorrectedAgrees |
| macros/src/derive/value/struct.rs:88-89 | the `_POSSIBLE_KEYS` constant is named with `format_ident!` from the displayed identifier, which keeps `r#` | `struct S { r#type: String }` derived as `RedisTransportValue` | name the constant from the unraw identifier, `TYPE_POSSIBLE_KEYS` | not executed | StructCodec.RawTypeFieldPanics | StructCodec.CorrectedRawFieldsBuild |
| macros/src/ext/type_ext.rs:186-196 | schema generation classifies a list by its last segment but takes the inner type from the first, and `expect`s it | a field typed `std::vec::Vec<u32>` with `#[redis(index)]` | the clause of `u32`, as for `Vec<u32>` | not executed | Golden.QualifiedListPanics | Schema.QualifiedListCorrected |

The schema generators, `is_ident` and the struct codec keep the as-written
readings, so the model behaves as the crate does. The corrected readings
sit beside them: `TypeExt.IsIdentCorrected`, `Schema.SchemaForTypeCorrected`
and `StructCodec.DeriveCorrected`. The first two are proved equal to the
as-written ones wherever the first and last path segments agree, the third
wherever no field identifier is raw (`StructCodec.DeriveCorrectedAgrees`).
