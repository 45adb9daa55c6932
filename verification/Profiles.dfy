/**
 Resolving the appliance profile into the set of enabled capabilities, from catalogs that metadata
 supplies.
 */
module Profiles {
  import opened Options
  import opened Strings
  import opened Sorting

  const BASE := "base"

  // A profile lists capabilities; a capability lists the capabilities it depends on.
  type Catalog = map<string, seq<string>>

  function Trim(s: string): (r: string) {
    Strip(s, IsGoSpace)
  }

  ghost predicate IsTrimOf(s: string, before: string, trimmed: string, after: string) {
    && s == before + (trimmed + after)
    && AllDropped(before, IsGoSpace) && AllDropped(after, IsGoSpace) && Bare(trimmed, IsGoSpace)
  }

  // A trimmed name is what is left without the white space around it.
  lemma TrimIs(s: string)
    ensures exists before, after :: IsTrimOf(s, before, Trim(s), after)
  {
    var before, after := StripIs(s, IsGoSpace);
    assert IsTrimOf(s, before, Trim(s), after);
  }

  /******* Catalogs from metadata *******/

  ghost predicate AreTrimmed(names: seq<string>, raw: seq<string>) {
    |names| == |raw| && forall i :: 0 <= i < |raw| ==> names[i] == Trim(raw[i])
  }

  // Each trimmed name stands for the definition of a name that trims to it.
  ghost predicate IsTrimmed(r: Catalog, metadata: Catalog) {
    && (forall n :: n in metadata ==> Trim(n) in r)
    && (forall p :: p in r ==> exists n :: n in metadata && Trim(n) == p && AreTrimmed(r[p], metadata[n]))
  }

  ghost predicate NoCollision(metadata: Catalog) {
    forall m, n :: m in metadata && n in metadata && Trim(m) == Trim(n) ==> m == n
  }

  // The metadata map is visited in any order.
  method CatalogFromMetadata(metadata: Catalog) returns (r: Option<Catalog>)
    ensures r.None? <==> exists n :: n in metadata && Trim(n) == ""
    ensures r.Some? ==> IsTrimmed(r.value, metadata)
  {
    var catalog: Catalog := map[];
    var todo := metadata.Keys;
    while todo != {}
      invariant todo <= metadata.Keys
      invariant forall n :: n in metadata.Keys - todo ==> Trim(n) != "" && Trim(n) in catalog
      invariant forall p :: p in catalog ==>
                  exists n :: n in metadata && Trim(n) == p && AreTrimmed(catalog[p], metadata[n])
      decreases todo
    {
      var name :| name in todo;
      if Trim(name) == "" {
        return None;
      }
      var names := [];
      for i := 0 to |metadata[name]|
        invariant |names| == i && forall j :: 0 <= j < i ==> names[j] == Trim(metadata[name][j])
      {
        names := names + [Trim(metadata[name][i])];
      }
      assert AreTrimmed(names, metadata[name]);
      catalog := catalog[Trim(name) := names];
      todo := todo - {name};
    }
    return Some(catalog);
  }

  lemma TrimmedOnce(a: seq<string>, b: seq<string>, raw: seq<string>)
    requires AreTrimmed(a, raw) && AreTrimmed(b, raw)
    ensures a == b
  {
  }

  lemma SameDefinition(metadata: Catalog, a: Catalog, b: Catalog, p: string)
    requires NoCollision(metadata) && IsTrimmed(a, metadata) && IsTrimmed(b, metadata) && (p in a || p in b)
    ensures p in a && p in b && a[p] == b[p]
  {
    var n :| n in metadata && Trim(n) == p;
    assert p in a && p in b;
    var m :| m in metadata && Trim(m) == p && AreTrimmed(a[p], metadata[m]);
    var k :| k in metadata && Trim(k) == p && AreTrimmed(b[p], metadata[k]);
    assert m == k;
    TrimmedOnce(a[p], b[p], metadata[m]);
  }

  // The order of the visit shows only when two names trim to the same one.
  lemma CatalogUnique(metadata: Catalog, a: Catalog, b: Catalog)
    requires NoCollision(metadata) && IsTrimmed(a, metadata) && IsTrimmed(b, metadata)
    ensures a == b
  {
    forall p | p in a || p in b ensures p in a && p in b && a[p] == b[p] {
      SameDefinition(metadata, a, b, p);
    }
  }

  /******* Names in a stable order *******/

  method Names(enabled: set<string>) returns (names: seq<string>)
    ensures SortedBy(NameLe, names) && Distinct(names)
    ensures forall c :: c in names <==> c in enabled
  {
    var found: seq<string> := [];
    var todo := enabled;
    while todo != {}
      invariant todo <= enabled && Distinct(found)
      invariant forall c :: c in found <==> c in enabled - todo
      decreases todo
    {
      var c :| c in todo;
      assert forall i :: 0 <= i < |found| ==> found[i] in found;
      found := found + [c];
      todo := todo - {c};
    }
    names := SortBy(NameLe, found);
    NameLeOrder();
    SortBySorted(NameLe, found);
    SameElements(found, names);
    PermutationDistinct(found, names);
  }

  // There is only one sorted list of a set, so the order in which Go visits its map cannot show.
  lemma {:induction false} SortedUnique(a: seq<string>, b: seq<string>)
    requires SortedBy(NameLe, a) && SortedBy(NameLe, b) && Distinct(a) && Distinct(b)
    requires forall c :: c in a <==> c in b
    ensures a == b
    decreases |a|
  {
    SameMultiset(a, b);
    assert |multiset(a)| == |a| && |multiset(b)| == |b|;
    if |a| > 0 {
      SameHead(a, b);
      assert a == [a[0]] + a[1..] && b == [b[0]] + b[1..];
      forall c ensures c in a[1..] <==> c in b[1..] {
        assert c in a <==> c == a[0] || c in a[1..];
        assert c in b <==> c == b[0] || c in b[1..];
      }
      SortedUnique(a[1..], b[1..]);
    }
  }

  lemma SameHead(a: seq<string>, b: seq<string>)
    requires SortedBy(NameLe, a) && SortedBy(NameLe, b) && |a| > 0 && |b| > 0
    requires forall c :: c in a <==> c in b
    ensures a[0] == b[0]
  {
    assert a[0] in b && b[0] in a;
    var i :| 0 <= i < |b| && b[i] == a[0];
    var j :| 0 <= j < |a| && a[j] == b[0];
    NameLeTotal(a[0], b[0]);
  }

  /******* Resolution *******/

  datatype Error =
    | UnknownProfile
    | UnknownCapability(capability: string)
    | MissingBase
    | MissingDependency(capability: string, dependency: string)

  // The profile is known, lists only known capabilities and the base, and lists whatever they depend on.
  ghost predicate Resolvable(name: string, profiles: Catalog, capabilities: Catalog) {
    && Trim(name) in profiles
    && var listed := profiles[Trim(name)];
    && "base" in listed
    && (forall c :: c in listed ==> c in capabilities && forall d :: d in capabilities[c] ==> d in listed)
  }

  /******* What is reported *******/

  ghost predicate AllIn(names: seq<string>, known: set<string>) {
    forall c :: c in names ==> c in known
  }

  // The first of the names that is not among the known ones.
  ghost predicate FirstOutside(names: seq<string>, known: set<string>, name: string) {
    exists i :: 0 <= i < |names| && names[i] == name && name !in known && AllIn(names[..i], known)
  }

  function Listed(listed: seq<string>): (r: set<string>) {
    set c | c in listed
  }

  // What is listed before the capability, in the order of names, has its dependencies listed.
  ghost predicate ClosedBefore(listed: seq<string>, capabilities: Catalog, c: string) {
    c in listed && forall b :: b in listed && b != c && NameLe(b, c) ==>
      b in capabilities && AllIn(capabilities[b], Listed(listed))
  }

  // The capabilities are looked at first, in the order listed; then the base; then the dependencies,
  // in the order of names.
  ghost predicate Blames(name: string, profiles: Catalog, capabilities: Catalog, e: Error) {
    if Trim(name) !in profiles then e == UnknownProfile
    else
      var listed := profiles[Trim(name)];
      if !AllIn(listed, capabilities.Keys) then
        e.UnknownCapability? && FirstOutside(listed, capabilities.Keys, e.capability)
      else if BASE !in listed then e == MissingBase
      else
        && e.MissingDependency? && ClosedBefore(listed, capabilities, e.capability) && e.capability in capabilities
        && FirstOutside(capabilities[e.capability], Listed(listed), e.dependency)
  }

  lemma FirstOutsideUnique(names: seq<string>, known: set<string>, a: string, b: string)
    requires FirstOutside(names, known, a) && FirstOutside(names, known, b)
    ensures a == b
  {
    var i :| 0 <= i < |names| && names[i] == a && a !in known && AllIn(names[..i], known);
    var j :| 0 <= j < |names| && names[j] == b && b !in known && AllIn(names[..j], known);
    assert !(i < j) by {
      assert forall k :: 0 <= k < j ==> names[k] in names[..j];
    }
    assert !(j < i) by {
      assert forall k :: 0 <= k < i ==> names[k] in names[..i];
    }
  }

  lemma FirstOutsideIsOutside(names: seq<string>, known: set<string>, name: string)
    requires FirstOutside(names, known, name)
    ensures !AllIn(names, known)
  {
    var i :| 0 <= i < |names| && names[i] == name && name !in known && AllIn(names[..i], known);
    assert names[i] in names;
  }

  // At most one error is to blame, so what is reported does not depend on chance.
  lemma BlameUnique(name: string, profiles: Catalog, capabilities: Catalog, a: Error, b: Error)
    requires Blames(name, profiles, capabilities, a) && Blames(name, profiles, capabilities, b)
    ensures a == b
  {
    if a.UnknownCapability? {
      FirstOutsideUnique(profiles[Trim(name)], capabilities.Keys, a.capability, b.capability);
    } else if a.MissingDependency? {
      var listed := Listed(profiles[Trim(name)]);
      FirstOutsideIsOutside(capabilities[a.capability], listed, a.dependency);
      FirstOutsideIsOutside(capabilities[b.capability], listed, b.dependency);
      NameLeTotal(a.capability, b.capability);
      FirstOutsideUnique(capabilities[a.capability], listed, a.dependency, b.dependency);
    }
  }

  lemma EarlierName(names: seq<string>, i: nat, b: string)
    requires SortedBy(NameLe, names) && i < |names| && b in names && b != names[i] && NameLe(b, names[i])
    ensures b in names[..i]
  {
    var j :| 0 <= j < |names| && names[j] == b;
    NameLeTotal(b, names[i]);
    assert names[..i][j] == b;
  }

  /******* The resolver *******/

  // The first of the names that is not known, if there is one.
  method FindOutside(names: seq<string>, known: set<string>) returns (r: Option<string>)
    ensures r.None? <==> AllIn(names, known)
    ensures r.Some? ==> FirstOutside(names, known, r.value)
  {
    for i := 0 to |names|
      invariant AllIn(names[..i], known)
    {
      if names[i] !in known {
        return Some(names[i]);
      }
    }
    assert names[..|names|] == names;
    return None;
  }

  method ResolveProfile(name: string, profiles: Catalog, capabilities: Catalog) returns (r: Result<set<string>, Error>)
    ensures r.Success? <==> Resolvable(name, profiles, capabilities)
    ensures r.Success? ==> forall c :: c in r.value <==> c in profiles[Trim(name)]
    ensures r.Failure? ==> Blames(name, profiles, capabilities, r.error)
  {
    var profile := Trim(name);
    if profile !in profiles {
      return Failure(UnknownProfile);
    }
    var listed := profiles[profile];
    var enabled: set<string> := {};
    for i := 0 to |listed|
      invariant enabled == Listed(listed[..i]) && AllIn(listed[..i], capabilities.Keys)
    {
      if listed[i] !in capabilities {
        assert FirstOutside(listed, capabilities.Keys, listed[i]);
        return Failure(UnknownCapability(listed[i]));
      }
      assert listed[..i + 1] == listed[..i] + [listed[i]];
      enabled := enabled + {listed[i]};
    }
    assert listed[..|listed|] == listed;
    if BASE !in enabled {
      return Failure(MissingBase);
    }
    var names := Names(enabled);
    for i := 0 to |names|
      invariant forall c :: c in names[..i] ==> c in capabilities && AllIn(capabilities[c], enabled)
    {
      assert names[i] in names;
      var missing := FindOutside(capabilities[names[i]], enabled);
      if missing.Some? {
        ClosedUpTo(listed, capabilities, names, i);
        return Failure(MissingDependency(names[i], missing.value));
      }
      assert names[..i + 1] == names[..i] + [names[i]];
    }
    assert names[..|names|] == names;
    return Success(enabled);
  }

  lemma ClosedUpTo(listed: seq<string>, capabilities: Catalog, names: seq<string>, i: nat)
    requires SortedBy(NameLe, names) && i < |names| && forall c :: c in names <==> c in Listed(listed)
    requires forall c :: c in names[..i] ==> c in capabilities && AllIn(capabilities[c], Listed(listed))
    ensures ClosedBefore(listed, capabilities, names[i])
  {
    assert names[i] in names;
    forall b | b in listed && b != names[i] && NameLe(b, names[i])
      ensures b in capabilities && AllIn(capabilities[b], Listed(listed))
    {
      EarlierName(names, i, b);
    }
  }

  /******* What a resolved profile guarantees *******/

  // A chain of dependencies, which may go round in a circle.
  ghost predicate IsChain(capabilities: Catalog, chain: seq<string>) {
    && |chain| > 0
    && forall i :: 0 <= i < |chain| - 1 ==> chain[i] in capabilities && chain[i + 1] in capabilities[chain[i]]
  }

  // Whatever an enabled capability depends on, directly or not, is enabled and known.
  lemma {:induction false} ResolvedIsClosed(name: string, profiles: Catalog, capabilities: Catalog, chain: seq<string>)
    requires Resolvable(name, profiles, capabilities)
    requires IsChain(capabilities, chain) && chain[0] in profiles[Trim(name)]
    ensures var last := chain[|chain| - 1]; last in profiles[Trim(name)] && last in capabilities
    decreases |chain|
  {
    if |chain| > 1 {
      var shorter := chain[..|chain| - 1];
      ResolvedIsClosed(name, profiles, capabilities, shorter);
      assert chain[|chain| - 2] == shorter[|shorter| - 1];
    }
  }

  // Order and repetition in the list do not matter.
  lemma ListOrderIrrelevant(name: string, profiles: Catalog, capabilities: Catalog, listed: seq<string>)
    requires Trim(name) in profiles && forall c :: c in listed <==> c in profiles[Trim(name)]
    ensures Resolvable(name, profiles, capabilities) <==> Resolvable(name, profiles[Trim(name) := listed], capabilities)
  {
  }
}
