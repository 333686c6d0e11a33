/**
 * The grouped form `name(serialize = "...", deserialize = "...")`: collecting
 * the two sides, and the two readings of them used for `rename` and
 * `rename_all`.
 */
module MetaLists {
  import opened Wrappers
  import opened Syntax
  import opened Symbols
  import opened Accumulators
  import opened Lits

  function MalformedMessage(attrName: Symbol): string {
    "malformed " + Display(attrName) + " attribute, expected `" + Display(attrName)
    + "(serialize = ..., deserialize = ...)`"
  }

  predicate IsSideItem(m: MetaItem, side: Symbol) {
    m.NameValue? && PathIs(m.path, side)
  }

  predicate IsSerDeItem(m: MetaItem) {
    IsSideItem(m, SERIALIZE) || IsSideItem(m, DESERIALIZE)
  }

  /** Every item is `serialize = ...` or `deserialize = ...`. */
  predicate WellFormed(items: seq<MetaItem>) {
    forall i :: 0 <= i < |items| ==> IsSerDeItem(items[i])
  }

  /** Reference: the string values given for one side, in source order. */
  function SideValues(items: seq<MetaItem>, side: Symbol): seq<string>
    decreases |items|
  {
    if |items| == 0 then []
    else
      (if IsSideItem(items[0], side) && items[0].lit.Str? then [items[0].lit.value] else [])
      + SideValues(items[1..], side)
  }

  /** Reference: one "must be a string" report per side item whose value is not a string. */
  function LitDiags(items: seq<MetaItem>, attrName: Symbol): seq<string>
    decreases |items|
  {
    if |items| == 0 then []
    else
      LitDiag(items[0], attrName)
      + LitDiags(items[1..], attrName)
  }

  /** The position of the first item that is neither side, or the length when there is none. */
  function FirstMalformed(items: seq<MetaItem>): (k: nat)
    ensures k <= |items|
    ensures WellFormed(items[..k])
    ensures k < |items| ==> !IsSerDeItem(items[k])
    ensures k == |items| <==> WellFormed(items)
    decreases |items|
  {
    if |items| == 0 then 0
    else if !IsSerDeItem(items[0]) then 0
    else
      var k := 1 + FirstMalformed(items[1..]);
      assert forall i :: 1 <= i < k ==> items[..k][i] == items[1..][..k - 1][i - 1];
      assert k == |items| ==> items[..k] == items;
      k
  }

  type SerAndDe = (VecAttr<string>, VecAttr<string>)

  /** The report one item contributes to `LitDiags`. */
  function LitDiag(m: MetaItem, attrName: Symbol): seq<string> {
    if IsSideItem(m, SERIALIZE) && !m.lit.Str? then [NotStringMessage(attrName, SERIALIZE)]
    else if IsSideItem(m, DESERIALIZE) && !m.lit.Str? then [NotStringMessage(attrName, DESERIALIZE)]
    else []
  }

  lemma UnfoldWellFormedHead(items: seq<MetaItem>, attrName: Symbol)
    requires |items| > 0 && IsSerDeItem(items[0])
    ensures WellFormed(items) <==> WellFormed(items[1..])
    ensures FirstMalformed(items) == 1 + FirstMalformed(items[1..])
    ensures LitDiags(items, attrName) == LitDiag(items[0], attrName) + LitDiags(items[1..], attrName)
    ensures LitDiags(items[..FirstMalformed(items)], attrName)
         == LitDiag(items[0], attrName) + LitDiags(items[1..][..FirstMalformed(items[1..])], attrName)
  {
    var k := FirstMalformed(items);
    assert items[..k][0] == items[0];
    assert items[..k][1..] == items[1..][..k - 1];
    assert WellFormed(items) ==> WellFormed(items[1..]) by {
      if WellFormed(items) {
        forall i | 0 <= i < |items[1..]| ensures IsSerDeItem(items[1..][i]) {
          assert items[1..][i] == items[i + 1];
        }
      }
    }
    assert WellFormed(items[1..]) ==> WellFormed(items) by {
      if WellFormed(items[1..]) {
        forall i | 0 <= i < |items| ensures IsSerDeItem(items[i]) {
          if i > 0 { assert items[i] == items[1..][i - 1]; }
        }
      }
    }
  }

  /** The walk of `get_ser_and_de`, from given accumulators and context. */
  function GetSerAndDeFrom(items: seq<MetaItem>, attrName: Symbol, ser: VecAttr<string>,
                           de: VecAttr<string>, ctx: Ctx): (Result<SerAndDe, ()>, Ctx)
    decreases |items|
  {
    if |items| == 0 then (Ok((ser, de)), ctx)
    else
      var m := items[0];
      if IsSideItem(m, SERIALIZE) then
        var (v, c) := ToLitStr0(m.lit, ctx, attrName, SERIALIZE);
        GetSerAndDeFrom(items[1..], attrName, if v.Ok? then Insert(ser, v.value) else ser, de, c)
      else if IsSideItem(m, DESERIALIZE) then
        var (v, c) := ToLitStr0(m.lit, ctx, attrName, DESERIALIZE);
        GetSerAndDeFrom(items[1..], attrName, ser, if v.Ok? then Insert(de, v.value) else de, c)
      else
        (Err(()), ctx + [MalformedMessage(attrName)])
  }

  /** The walk succeeds exactly on well-formed lists, and then holds each side's values in order. */
  lemma {:induction false} GetSerAndDeFromValues(items: seq<MetaItem>, attrName: Symbol, ser: VecAttr<string>,
                                                 de: VecAttr<string>, ctx: Ctx)
    ensures GetSerAndDeFrom(items, attrName, ser, de, ctx).0.Ok? <==> WellFormed(items)
    ensures GetSerAndDeFrom(items, attrName, ser, de, ctx).0.Ok? ==>
      GetSerAndDeFrom(items, attrName, ser, de, ctx).0.value
      == (VecAttr(ser.name, ser.values + SideValues(items, SERIALIZE)),
          VecAttr(de.name, de.values + SideValues(items, DESERIALIZE)))
    decreases |items|
  {
    if |items| > 0 {
      var m := items[0];
      if IsSerDeItem(m) {
        UnfoldWellFormedHead(items, attrName);
        var side := if IsSideItem(m, SERIALIZE) then SERIALIZE else DESERIALIZE;
        var (v, c) := ToLitStr0(m.lit, ctx, attrName, side);
        var ser1 := if side == SERIALIZE && v.Ok? then Insert(ser, v.value) else ser;
        var de1 := if side == DESERIALIZE && v.Ok? then Insert(de, v.value) else de;
        assert GetSerAndDeFrom(items, attrName, ser, de, ctx) == GetSerAndDeFrom(items[1..], attrName, ser1, de1, c);
        GetSerAndDeFromValues(items[1..], attrName, ser1, de1, c);
        assert ser1.name == ser.name && ser1.values == ser.values + (if side == SERIALIZE && v.Ok? then [v.value] else []);
        assert de1.name == de.name && de1.values == de.values + (if side == DESERIALIZE && v.Ok? then [v.value] else []);
        assert SideValues(items, SERIALIZE) == (if side == SERIALIZE && v.Ok? then [v.value] else []) + SideValues(items[1..], SERIALIZE);
        assert SideValues(items, DESERIALIZE) == (if side == DESERIALIZE && v.Ok? then [v.value] else []) + SideValues(items[1..], DESERIALIZE);
        ConcatAssoc(ser.values, if side == SERIALIZE && v.Ok? then [v.value] else [], SideValues(items[1..], SERIALIZE));
        ConcatAssoc(de.values, if side == DESERIALIZE && v.Ok? then [v.value] else [], SideValues(items[1..], DESERIALIZE));
      } else {
        assert !WellFormed(items);
      }
    } else {
      assert ser.values + [] == ser.values && de.values + [] == de.values;
    }
  }

  /** The walk reports each non-string value, and stops at the first malformed item with one more report. */
  lemma {:induction false} GetSerAndDeFromDiags(items: seq<MetaItem>, attrName: Symbol, ser: VecAttr<string>,
                                                de: VecAttr<string>, ctx: Ctx)
    ensures GetSerAndDeFrom(items, attrName, ser, de, ctx).1
         == ctx + LitDiags(items[..FirstMalformed(items)], attrName)
            + (if WellFormed(items) then [] else [MalformedMessage(attrName)])
    decreases |items|
  {
    if |items| == 0 {
      assert items[..0] == [];
    } else {
      var m := items[0];
      if IsSerDeItem(m) {
        UnfoldWellFormedHead(items, attrName);
        var side := if IsSideItem(m, SERIALIZE) then SERIALIZE else DESERIALIZE;
        var (v, c) := ToLitStr0(m.lit, ctx, attrName, side);
        assert c == ctx + LitDiag(m, attrName);
        var ser1 := if side == SERIALIZE && v.Ok? then Insert(ser, v.value) else ser;
        var de1 := if side == DESERIALIZE && v.Ok? then Insert(de, v.value) else de;
        assert GetSerAndDeFrom(items, attrName, ser, de, ctx) == GetSerAndDeFrom(items[1..], attrName, ser1, de1, c);
        GetSerAndDeFromDiags(items[1..], attrName, ser1, de1, c);
        var rest := LitDiags(items[1..][..FirstMalformed(items[1..])], attrName);
        var tail := if WellFormed(items) then [] else [MalformedMessage(attrName)];
        ConcatRegroup(ctx, LitDiag(m, attrName), rest, tail);
      } else {
        assert !WellFormed(items);
        assert items[..FirstMalformed(items)] == [];
      }
    }
  }

  /**
   * `get_ser_and_de`: `serialize = lit` items collect into the first list and
   * `deserialize = lit` items into the second, each in source order; a
   * non-string value is reported and dropped and the walk goes on; any other
   * item is reported as malformed and stops the walk with Err.
   */
  function GetSerAndDe(ctx: Ctx, attrName: Symbol, items: seq<MetaItem>): (r: (Result<SerAndDe, ()>, Ctx))
    ensures r.0.Ok? <==> WellFormed(items)
    ensures r.0.Ok? ==> r.0.value.0 == VecAttr(attrName, SideValues(items, SERIALIZE))
    ensures r.0.Ok? ==> r.0.value.1 == VecAttr(attrName, SideValues(items, DESERIALIZE))
    ensures r.0.Ok? ==> r.1 == ctx + LitDiags(items, attrName)
    ensures r.0.Err? ==> r.1 == ctx + LitDiags(items[..FirstMalformed(items)], attrName) + [MalformedMessage(attrName)]
  {
    GetSerAndDeFromValues(items, attrName, NewVec(attrName), NewVec(attrName), ctx);
    GetSerAndDeFromDiags(items, attrName, NewVec(attrName), NewVec(attrName), ctx);
    assert WellFormed(items) ==> items[..FirstMalformed(items)] == items;
    GetSerAndDeFrom(items, attrName, NewVec(attrName), NewVec(attrName), ctx)
  }

  /**
   * `get_renames`: at most one value per side. More than one serialize value
   * is reported and fails before the deserialize side is looked at. The
   * accumulators are named `rename` whichever keyword is being parsed.
   */
  function GetRenames(ctx: Ctx, items: seq<MetaItem>): (r: (Result<(Option<string>, Option<string>), ()>, Ctx))
    ensures r.0.Ok? <==> WellFormed(items) && |SideValues(items, SERIALIZE)| <= 1
                          && |SideValues(items, DESERIALIZE)| <= 1
    ensures r.0.Ok? ==> r.0.value == (FirstOf(SideValues(items, SERIALIZE)), FirstOf(SideValues(items, DESERIALIZE)))
    ensures r.0.Ok? ==> r.1 == ctx + LitDiags(items, RENAME)
    ensures WellFormed(items) && r.0.Err? ==> r.1 == ctx + LitDiags(items, RENAME) + [AtMostOneMessage(RENAME)]
    ensures !WellFormed(items) ==> r.1 == ctx + LitDiags(items[..FirstMalformed(items)], RENAME) + [MalformedMessage(RENAME)]
  {
    var (sd, c) := GetSerAndDe(ctx, RENAME, items);
    match sd
    case Err(_) => (Err(()), c)
    case Ok((ser, de)) =>
      var (s, c2) := AtMostOne(ser, c);
      match s
      case Err(_) => (Err(()), c2)
      case Ok(sv) =>
        var (d, c3) := AtMostOne(de, c2);
        match d
        case Err(_) => (Err(()), c3)
        case Ok(dv) => (Ok((sv, dv)), c3)
  }

  /** `get_multiple_renames`: at most one serialize value, every deserialize value in source order. */
  function GetMultipleRenames(ctx: Ctx, items: seq<MetaItem>): (r: (Result<(Option<string>, seq<string>), ()>, Ctx))
    ensures r.0.Ok? <==> WellFormed(items) && |SideValues(items, SERIALIZE)| <= 1
    ensures r.0.Ok? ==> r.0.value == (FirstOf(SideValues(items, SERIALIZE)), SideValues(items, DESERIALIZE))
    ensures r.0.Ok? ==> r.1 == ctx + LitDiags(items, RENAME)
    ensures WellFormed(items) && r.0.Err? ==> r.1 == ctx + LitDiags(items, RENAME) + [AtMostOneMessage(RENAME)]
    ensures !WellFormed(items) ==> r.1 == ctx + LitDiags(items[..FirstMalformed(items)], RENAME) + [MalformedMessage(RENAME)]
  {
    var (sd, c) := GetSerAndDe(ctx, RENAME, items);
    match sd
    case Err(_) => (Err(()), c)
    case Ok((ser, de)) =>
      var (s, c2) := AtMostOne(ser, c);
      match s
      case Err(_) => (Err(()), c2)
      case Ok(sv) => (Ok((sv, de.values)), c2)
  }
}
