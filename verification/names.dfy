/**
 * `Name`: the serialize name, deserialize name and deserialize aliases of one
 * field or variant, resolved from the parsed accumulators. Aliases pass
 * through a `BTreeSet`, so they come out sorted and without repeats.
 */
module Names {
  import opened Wrappers
  import opened Strings
  import opened Accumulators

  predicate StrictlySorted(s: seq<string>) {
    forall i, j :: 0 <= i < j < |s| ==> Less(s[i], s[j])
  }

  predicate NoDuplicates<T(==)>(s: seq<T>) {
    forall i, j :: 0 <= i < j < |s| ==> s[i] != s[j]
  }

  lemma SortedHasNoDuplicates(s: seq<string>)
    requires StrictlySorted(s)
    ensures NoDuplicates(s)
  {
    forall i, j | 0 <= i < j < |s| ensures s[i] != s[j] {
      if s[i] == s[j] {
        LessIrreflexive(s[i]);
      }
    }
  }

  /** `BTreeSet::insert` on the set's sorted contents. */
  function InsertSorted(s: seq<string>, x: string): (r: seq<string>)
    requires StrictlySorted(s)
    ensures StrictlySorted(r)
    ensures forall y :: y in r <==> y in s || y == x
    decreases |s|
  {
    if |s| == 0 then [x]
    else if x == s[0] then s
    else if Less(x, s[0]) then
      assert StrictlySorted([x] + s) by {
        forall j | 0 <= j < |s| ensures Less(x, s[j]) {
          if j > 0 { LessTransitive(x, s[0], s[j]); }
        }
      }
      [x] + s
    else
      LessTotal(x, s[0]);
      var rest := InsertSorted(s[1..], x);
      assert forall y :: y in s <==> y == s[0] || y in s[1..];
      assert forall j :: 0 <= j < |rest| ==> Less(s[0], rest[j]) by {
        forall j | 0 <= j < |rest| ensures Less(s[0], rest[j]) {
          assert rest[j] in rest;
          if rest[j] != x {
            var k :| 0 <= k < |s[1..]| && s[1..][k] == rest[j];
          }
        }
      }
      [s[0]] + rest
  }

  /** The values collected into a `BTreeSet` and read back in iteration order. */
  function SortedSet(xs: seq<string>): (r: seq<string>)
    ensures StrictlySorted(r)
    ensures forall y :: y in r <==> y in xs
    decreases |xs|
  {
    if |xs| == 0 then []
    else
      var r := InsertSorted(SortedSet(xs[..|xs| - 1]), xs[|xs| - 1]);
      assert xs == xs[..|xs| - 1] + [xs[|xs| - 1]];
      r
  }

  /** A set has one sorted listing: two strictly sorted sequences with the same members are equal. */
  lemma {:induction false} SortedUnique(a: seq<string>, b: seq<string>)
    requires StrictlySorted(a) && StrictlySorted(b)
    requires forall y :: y in a <==> y in b
    ensures a == b
    decreases |a|
  {
    assert |a| > 0 ==> a[0] in a;
    assert |b| > 0 ==> b[0] in b;
    if |a| > 0 && |b| > 0 {
      if a[0] != b[0] {
        assert b[0] in a;
        assert a[0] in b;
        var i :| 0 <= i < |a| && a[i] == b[0];
        var j :| 0 <= j < |b| && b[j] == a[0];
        assert i > 0 && j > 0;
        LessAsymmetric(a[0], b[0]);
        assert false;
      }
      forall y ensures y in a[1..] <==> y in b[1..] {
        if y in a[1..] {
          var k :| 0 <= k < |a[1..]| && a[1..][k] == y;
          assert Less(a[0], y);
          assert y != b[0] by { LessIrreflexive(y); }
          assert y in b;
        }
        if y in b[1..] {
          var k :| 0 <= k < |b[1..]| && b[1..][k] == y;
          assert Less(b[0], y);
          assert y != a[0] by { LessIrreflexive(y); }
          assert y in a;
        }
      }
      SortedUnique(a[1..], b[1..]);
      assert a == [a[0]] + a[1..] && b == [b[0]] + b[1..];
    }
  }

  datatype Name = Name(
    serialize: string,
    serializeRenamed: bool,
    deserialize: string,
    deserializeRenamed: bool,
    /** The stored aliases, before the deserialize name is added. */
    aliasSet: seq<string>
  )

  /**
   * `Name::from_attrs`: an explicit name wins over the source name, and the
   * renamed flag says whether one was given. With no alias accumulator there
   * are no stored aliases.
   */
  function FromAttrs(sourceName: string, ser: Attr<string>, de: Attr<string>,
                     aliases: Option<VecAttr<string>>): (n: Name)
    ensures n.serializeRenamed <==> ser.value.Some?
    ensures n.serialize == (if ser.value.Some? then ser.value.value else sourceName)
    ensures n.deserializeRenamed <==> de.value.Some?
    ensures n.deserialize == (if de.value.Some? then de.value.value else sourceName)
    ensures StrictlySorted(n.aliasSet)
    ensures aliases.None? ==> n.aliasSet == []
    ensures aliases.Some? ==> forall y :: y in n.aliasSet <==> y in aliases.value.values
  {
    Name(
      if ser.value.Some? then ser.value.value else sourceName,
      ser.value.Some?,
      if de.value.Some? then de.value.value else sourceName,
      de.value.Some?,
      match aliases
      case None => []
      case Some(v) => SortedSet(v.values))
  }

  /** `Name::serialize_name`. */
  function SerializeName(n: Name): string {
    n.serialize
  }

  /** `Name::deserialize_name`. */
  function DeserializeName(n: Name): string {
    n.deserialize
  }

  /**
   * `Name::deserialize_aliases`: the stored aliases in order, followed by the
   * deserialize name unless it is already one of them.
   */
  function DeserializeAliases(n: Name): (r: seq<string>)
    ensures DeserializeName(n) in r
    ensures |n.aliasSet| <= |r| <= |n.aliasSet| + 1
    ensures r[..|n.aliasSet|] == n.aliasSet
    ensures forall y :: y in r <==> y in n.aliasSet || y == DeserializeName(n)
    ensures NoDuplicates(n.aliasSet) ==> NoDuplicates(r)
  {
    if DeserializeName(n) in n.aliasSet then n.aliasSet
    else n.aliasSet + [DeserializeName(n)]
  }

  /** Every name resolved from accumulators has repeat-free aliases, the deserialize name among them. */
  lemma ResolvedAliasesAreDistinct(sourceName: string, ser: Attr<string>, de: Attr<string>,
                                   aliases: Option<VecAttr<string>>)
    ensures NoDuplicates(DeserializeAliases(FromAttrs(sourceName, ser, de, aliases)))
    ensures DeserializeName(FromAttrs(sourceName, ser, de, aliases))
         in DeserializeAliases(FromAttrs(sourceName, ser, de, aliases))
  {
    SortedHasNoDuplicates(FromAttrs(sourceName, ser, de, aliases).aliasSet);
  }
}
