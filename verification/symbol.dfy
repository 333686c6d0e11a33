/** The fixed vocabulary of `#[redis(...)]` keywords and how parsed names are compared with it. */
module Symbols {
  import opened Wrappers
  import opened Syntax

  datatype Symbol = Symbol(text: string)

  const REDIS: Symbol := Symbol("redis")
  const DESERIALIZE: Symbol := Symbol("deserialize")
  const SERIALIZE: Symbol := Symbol("serialize")
  const DEFAULT: Symbol := Symbol("default")
  const PRIMARY_KEY: Symbol := Symbol("primary_key")
  const PREFIX_KEY: Symbol := Symbol("prefix_key")
  const MODEL_TYPE: Symbol := Symbol("model_type")
  const INDEX: Symbol := Symbol("index")
  const SORTABLE: Symbol := Symbol("sortable")
  const FULL_TEXT_SEARCH: Symbol := Symbol("full_text_search")
  const RENAME: Symbol := Symbol("rename")
  const RENAME_ALL: Symbol := Symbol("rename_all")
  const ALIAS: Symbol := Symbol("alias")
  const FLATTEN: Symbol := Symbol("flatten")
  /** The `skip` keyword is spelled with the same text as `skip_serializing`. */
  const SKIP: Symbol := Symbol("skip_serializing")
  const SKIP_SERIALIZING: Symbol := Symbol("skip_serializing")
  const SKIP_DESERIALIZING: Symbol := Symbol("skip_deserializing")
  /**
   * The container's alternative spelling of `prefix_key`. The symbol table
   * does not define this constant; the container parser refers to it and its
   * comment calls it a stream key. It is taken here to be `key`.
   */
  const KEY: Symbol := Symbol("key")

  const AllSymbols: seq<Symbol> := [
    REDIS, DESERIALIZE, SERIALIZE, DEFAULT, PRIMARY_KEY, PREFIX_KEY, MODEL_TYPE,
    INDEX, SORTABLE, FULL_TEXT_SEARCH, RENAME, RENAME_ALL, ALIAS, FLATTEN,
    SKIP, SKIP_SERIALIZING, SKIP_DESERIALIZING
  ]

  /** `Ident == Symbol`: the identifier's text is the symbol's text. */
  predicate IdentIs(ident: string, sym: Symbol) {
    ident == sym.text
  }

  /** `Path == Symbol`: the path is one bare identifier whose text is the symbol's. */
  predicate PathIs(p: Path, sym: Symbol)
    ensures PathIs(p, sym) <==> p == IdentPath(sym.text)
  {
    GetIdent(p) == Some(sym.text)
  }

  /** `Display for Symbol`. */
  function Display(sym: Symbol): (r: string)
    ensures IdentIs(r, sym)
  {
    sym.text
  }

  /** `skip` and `skip_serializing` are the same keyword. */
  lemma SkipIsSkipSerializing()
    ensures SKIP == SKIP_SERIALIZING
    ensures PathIs(IdentPath("skip_serializing"), SKIP)
  {
  }

  /** The bare word `skip` is not a keyword at all. */
  lemma BareSkipMatchesNoSymbol()
    ensures forall i :: 0 <= i < |AllSymbols| ==> !PathIs(IdentPath("skip"), AllSymbols[i])
  {
  }

  /** A path of several segments, or with a leading `::`, or with arguments, never names a keyword. */
  lemma QualifiedPathMatchesNoSymbol(p: Path, sym: Symbol)
    requires p.leadingColon || |p.segments| != 1 || p.segments[0].args != NoArgs
    ensures !PathIs(p, sym)
  {
  }
}
