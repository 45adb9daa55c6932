/**
 From the packs selected for a release to the artifacts that must be built: packs list capabilities,
 capabilities require artifacts.
 */
module PackResolver {
  import opened Options
  import opened Strings
  import opened Sorting
  import opened CatalogParser
  import opened CatalogRendering

  // The ids that a capability may require.  Everything below takes the list as a parameter.
  const KNOWN_ARTIFACTS: seq<string> := [
    "control-plane-image", "control-plane-chart", "ui-image", "blob-storage-image",
    "message-broker-image", "message-broker-chart", "host-agent-daemon", "mdns-host-packages",
    "host-agent-image", "artifact-server-image", "appliance-registry-chart", "coredns-image",
    "appliance-dns-chart", "inference-runtime-image", "inference-manager-image", "open-webui-image",
    "open-webui-gateway-image", "appliance-inference-chart", "workspace-provisioner-image",
    "workflows-chart", "workflows-crds", "workflow-controller-image", "workflow-executor-image",
    "jellyfin-image"]

  type Catalog = map<string, Entry>

  datatype Resolution = Resolution(capabilities: set<string>, artifacts: set<string>)

  function CapabilitiesOf(e: Entry): (r: seq<string>) {
    if e.capabilities.Some? then e.capabilities.value else []
  }

  function RequiredOf(e: Entry): (r: seq<string>) {
    if e.artifacts.Some? && e.artifacts.value.required.Some? then e.artifacts.value.required.value else []
  }

  function ArtifactName(id: string): (r: string) {
    Strip(id, IsSpace)
  }

  /******* What is selected and what it requires *******/

  ghost function Selected(packages: Catalog, packs: seq<string>): (r: set<string>) {
    set p, c | p in packs && p in packages && c in CapabilitiesOf(packages[p]) :: c
  }

  ghost function Required(capabilities: Catalog, caps: set<string>): (r: set<string>) {
    set c, a | c in caps && c in capabilities && a in RequiredOf(capabilities[c]) && ArtifactName(a) != ""
      :: ArtifactName(a)
  }

  ghost predicate PacksKnown(packages: Catalog, packs: seq<string>) {
    forall p :: p in packs ==> p in packages
  }

  predicate IdKnown(known: seq<string>, id: string) {
    ArtifactName(id) == "" || ArtifactName(id) in known
  }

  ghost predicate RequirementsKnown(known: seq<string>, e: Entry) {
    forall a :: a in RequiredOf(e) ==> IdKnown(known, a)
  }

  ghost predicate CapabilitiesKnown(known: seq<string>, capabilities: Catalog, caps: set<string>) {
    forall c :: c in caps ==> c in capabilities && RequirementsKnown(known, capabilities[c])
  }

  // Every pack, every capability it lists and every nonblank artifact id is known.
  ghost predicate Resolvable(known: seq<string>, packages: Catalog, capabilities: Catalog, packs: seq<string>) {
    PacksKnown(packages, packs) && CapabilitiesKnown(known, capabilities, Selected(packages, packs))
  }

  /******* What is reported *******/

  datatype Problem = UnknownPack(pack: string) | UnknownCapability(cap: string) | UnknownArtifact(cap: string, name: string)

  // The name of the first id that is not known.
  ghost predicate FirstUnknown(known: seq<string>, ids: seq<string>, name: string) {
    exists i :: 0 <= i < |ids| && !IdKnown(known, ids[i]) && ArtifactName(ids[i]) == name && AllKnown(known, ids[..i])
  }

  ghost predicate AllKnown(known: seq<string>, ids: seq<string>) {
    forall id :: id in ids ==> IdKnown(known, id)
  }

  // Everything is in order up to the capability.
  ghost predicate KnownBefore(known: seq<string>, capabilities: Catalog, caps: set<string>, cap: string) {
    cap in caps && forall c :: c in caps && c != cap && NameLe(c, cap) ==>
      c in capabilities && RequirementsKnown(known, capabilities[c])
  }

  // The packs are looked at first, in the order given, and then the capabilities, sorted.
  ghost predicate Blames(known: seq<string>, packages: Catalog, capabilities: Catalog, packs: seq<string>, problem: Problem) {
    match problem
    case UnknownPack(pack) =>
      exists i :: 0 <= i < |packs| && packs[i] == pack && pack !in packages && PacksKnown(packages, packs[..i])
    case UnknownCapability(cap) =>
      && PacksKnown(packages, packs) && KnownBefore(known, capabilities, Selected(packages, packs), cap)
      && cap !in capabilities
    case UnknownArtifact(cap, name) =>
      && PacksKnown(packages, packs) && KnownBefore(known, capabilities, Selected(packages, packs), cap)
      && cap in capabilities && FirstUnknown(known, RequiredOf(capabilities[cap]), name)
  }

  lemma FirstIndexUnique(known: seq<string>, ids: seq<string>, i: nat, j: nat)
    requires i < |ids| && !IdKnown(known, ids[i]) && AllKnown(known, ids[..i])
    requires j < |ids| && !IdKnown(known, ids[j]) && AllKnown(known, ids[..j])
    ensures i == j
  {
    assert !(i < j) by {
      assert forall k :: 0 <= k < j ==> ids[k] in ids[..j];
    }
    assert !(j < i) by {
      assert forall k :: 0 <= k < i ==> ids[k] in ids[..i];
    }
  }

  lemma FirstUnknownUnique(known: seq<string>, ids: seq<string>, a: string, b: string)
    requires FirstUnknown(known, ids, a) && FirstUnknown(known, ids, b)
    ensures a == b
  {
    var i :| 0 <= i < |ids| && !IdKnown(known, ids[i]) && ArtifactName(ids[i]) == a && AllKnown(known, ids[..i]);
    var j :| 0 <= j < |ids| && !IdKnown(known, ids[j]) && ArtifactName(ids[j]) == b && AllKnown(known, ids[..j]);
    FirstIndexUnique(known, ids, i, j);
  }

  lemma FirstPackUnique(packages: Catalog, packs: seq<string>, i: nat, j: nat)
    requires i < |packs| && packs[i] !in packages && PacksKnown(packages, packs[..i])
    requires j < |packs| && packs[j] !in packages && PacksKnown(packages, packs[..j])
    ensures i == j
  {
    assert !(i < j) by {
      assert forall k :: 0 <= k < j ==> packs[k] in packs[..j];
    }
    assert !(j < i) by {
      assert forall k :: 0 <= k < i ==> packs[k] in packs[..i];
    }
  }

  // At most one problem is to blame, so what is reported does not depend on chance.
  lemma BlameUnique(known: seq<string>, packages: Catalog, capabilities: Catalog, packs: seq<string>, a: Problem, b: Problem)
    requires Blames(known, packages, capabilities, packs, a) && Blames(known, packages, capabilities, packs, b)
    ensures a == b
  {
    if a.UnknownPack? && b.UnknownPack? {
      var i :| 0 <= i < |packs| && packs[i] == a.pack && a.pack !in packages && PacksKnown(packages, packs[..i]);
      var j :| 0 <= j < |packs| && packs[j] == b.pack && b.pack !in packages && PacksKnown(packages, packs[..j]);
      FirstPackUnique(packages, packs, i, j);
    } else if !a.UnknownPack? && !b.UnknownPack? {
      NameLeTotal(a.cap, b.cap);
      UnknownIsBad(known, capabilities, a);
      UnknownIsBad(known, capabilities, b);
      assert a.cap == b.cap;
      if a.UnknownArtifact? {
        FirstUnknownUnique(known, RequiredOf(capabilities[a.cap]), a.name, b.name);
      }
    }
  }

  lemma UnknownIsBad(known: seq<string>, capabilities: Catalog, a: Problem)
    requires !a.UnknownPack? && (a.UnknownCapability? ==> a.cap !in capabilities)
    requires a.UnknownArtifact? ==> a.cap in capabilities && FirstUnknown(known, RequiredOf(capabilities[a.cap]), a.name)
    ensures !(a.cap in capabilities && RequirementsKnown(known, capabilities[a.cap]))
  {
    if a.UnknownArtifact? {
      var ids := RequiredOf(capabilities[a.cap]);
      var i :| 0 <= i < |ids| && !IdKnown(known, ids[i]) && ArtifactName(ids[i]) == a.name && AllKnown(known, ids[..i]);
      assert ids[i] in ids;
    }
  }

  /******* The resolver *******/

  method SelectCapabilities(packages: Catalog, packs: seq<string>) returns (r: Result<set<string>, string>)
    ensures r.Success? <==> PacksKnown(packages, packs)
    ensures r.Success? ==> r.value == Selected(packages, packs)
    ensures r.Failure? ==>
              exists i :: 0 <= i < |packs| && packs[i] == r.error && r.error !in packages && PacksKnown(packages, packs[..i])
  {
    var caps: set<string> := {};
    for i := 0 to |packs|
      invariant PacksKnown(packages, packs[..i])
      invariant caps == Selected(packages, packs[..i])
    {
      assert packs[..i + 1] == packs[..i] + [packs[i]];
      if packs[i] !in packages {
        return Failure(packs[i]);
      }
      caps := caps + set c | c in CapabilitiesOf(packages[packs[i]]);
    }
    assert packs[..|packs|] == packs;
    return Success(caps);
  }

  ghost function NamesIn(ids: seq<string>): (r: set<string>) {
    set a | a in ids && ArtifactName(a) != "" :: ArtifactName(a)
  }

  lemma NamesInAppend(ids: seq<string>, id: string)
    ensures NamesIn(ids + [id]) == NamesIn(ids) + if ArtifactName(id) == "" then {} else {ArtifactName(id)}
  {
    assert forall a :: a in ids + [id] <==> a in ids || a == id;
  }

  method AddRequired(known: seq<string>, e: Entry, artifacts: set<string>) returns (r: Result<set<string>, string>)
    ensures r.Success? <==> RequirementsKnown(known, e)
    ensures r.Success? ==> r.value == artifacts + NamesIn(RequiredOf(e))
    ensures r.Failure? ==> FirstUnknown(known, RequiredOf(e), r.error)
  {
    var ids, all := RequiredOf(e), artifacts;
    for i := 0 to |ids|
      invariant AllKnown(known, ids[..i])
      invariant all == artifacts + NamesIn(ids[..i])
    {
      assert ids[..i + 1] == ids[..i] + [ids[i]];
      NamesInAppend(ids[..i], ids[i]);
      var name := ArtifactName(ids[i]);
      if name == "" {
        continue;
      }
      if name !in known {
        assert ids[i] in RequiredOf(e) && !IdKnown(known, ids[i]);
        return Failure(name);
      }
      all := all + {name};
    }
    assert ids[..|ids|] == ids;
    return Success(all);
  }

  lemma RequiredAdd(capabilities: Catalog, done: set<string>, cap: string)
    requires cap in capabilities
    ensures Required(capabilities, done + {cap}) == Required(capabilities, done) + NamesIn(RequiredOf(capabilities[cap]))
  {
  }

  method ResolveArtifacts(known: seq<string>, packages: Catalog, capabilities: Catalog, packs: seq<string>)
      returns (r: Result<Resolution, Problem>)
    ensures r.Success? <==> Resolvable(known, packages, capabilities, packs)
    ensures r.Success? ==> var caps := Selected(packages, packs);
              r.value == Resolution(caps, Required(capabilities, caps))
    ensures r.Failure? ==> Blames(known, packages, capabilities, packs, r.error)
  {
    var selected := SelectCapabilities(packages, packs);
    if selected.Failure? {
      return Failure(UnknownPack(selected.error));
    }
    var caps, artifacts := selected.value, {};
    var todo := caps;
    while todo != {}
      invariant todo <= caps
      invariant CapabilitiesKnown(known, capabilities, caps - todo)
      invariant artifacts == Required(capabilities, caps - todo)
      decreases todo
    {
      // the next in sorted order
      ghost var least := LeastExists(todo);
      var cap :| IsLeast(todo, cap);
      LeastIsNext(known, capabilities, caps, todo, cap);
      if cap !in capabilities {
        return Failure(UnknownCapability(cap));
      }
      var more := AddRequired(known, capabilities[cap], artifacts);
      if more.Failure? {
        return Failure(UnknownArtifact(cap, more.error));
      }
      RequiredAdd(capabilities, caps - todo, cap);
      assert caps - (todo - {cap}) == (caps - todo) + {cap};
      todo, artifacts := todo - {cap}, more.value;
    }
    assert caps - {} == caps;
    return Success(Resolution(caps, artifacts));
  }

  lemma LeastIsNext(known: seq<string>, capabilities: Catalog, caps: set<string>, todo: set<string>, cap: string)
    requires todo <= caps && IsLeast(todo, cap) && CapabilitiesKnown(known, capabilities, caps - todo)
    ensures KnownBefore(known, capabilities, caps, cap)
  {
    forall c | c in caps && c != cap && NameLe(c, cap)
      ensures c in capabilities && RequirementsKnown(known, capabilities[c])
    {
      NameLeTotal(c, cap);
      assert c in caps - todo;
    }
  }

  /******* What resolution means *******/

  // Selecting two lists of packs selects, and requires, what the two require together.
  lemma ResolveConcat(known: seq<string>, packages: Catalog, capabilities: Catalog, a: seq<string>, b: seq<string>)
    ensures Selected(packages, a + b) == Selected(packages, a) + Selected(packages, b)
    ensures Required(capabilities, Selected(packages, a + b))
         == Required(capabilities, Selected(packages, a)) + Required(capabilities, Selected(packages, b))
    ensures Resolvable(known, packages, capabilities, a + b)
       <==> Resolvable(known, packages, capabilities, a) && Resolvable(known, packages, capabilities, b)
  {
    assert forall p :: p in a + b <==> p in a || p in b;
    assert Selected(packages, a + b) == Selected(packages, a) + Selected(packages, b);
    assert PacksKnown(packages, a + b) <==> PacksKnown(packages, a) && PacksKnown(packages, b) by {
      assert forall p :: p in a ==> p in a + b;
      assert forall p :: p in b ==> p in a + b;
    }
  }

  // Neither the order of the packs nor their repetition matters.
  lemma OrderIrrelevant(known: seq<string>, packages: Catalog, capabilities: Catalog, a: seq<string>, b: seq<string>)
    requires forall p :: p in a <==> p in b
    ensures Selected(packages, a) == Selected(packages, b)
    ensures Resolvable(known, packages, capabilities, a) <==> Resolvable(known, packages, capabilities, b)
  {
    assert Selected(packages, a) == Selected(packages, b);
  }

  /******* From what is written to what is resolved *******/

  // The identifier is written in the field, in flow or in block form.
  ghost predicate Writes(f: Field, id: string) {
    match f
    case Capabilities(_, parts, _) => exists k :: 0 <= k < |parts| && parts[k].Id? && parts[k].id == id
    case RequiredFlow(_, parts, _) => exists k :: 0 <= k < |parts| && parts[k].Id? && parts[k].id == id
    case RequiredBlock(_, items) => exists k :: 0 <= k < |items| && items[k].BlockId? && items[k].id == id
    case _ => false
  }

  // The field at j is the last `capabilities` of the entry: an earlier one is overridden.
  ghost predicate LastCapabilities(fields: seq<Field>, j: int) {
    0 <= j < |fields| && fields[j].Capabilities? && forall k :: j < k < |fields| ==> !fields[k].Capabilities?
  }

  ghost predicate LastRequired(fields: seq<Field>, j: int) {
    && 0 <= j < |fields| && (fields[j].RequiredFlow? || fields[j].RequiredBlock?)
    && forall k :: j < k < |fields| ==> !fields[k].RequiredFlow? && !fields[k].RequiredBlock?
  }

  // The entry at i is the last of its name.
  ghost predicate EntryAt(entries: seq<EntryLayout>, name: string, i: int) {
    0 <= i < |entries| && entries[i].name == name && forall k :: i < k < |entries| ==> entries[k].name != name
  }

  ghost predicate HasEntry(d: Layout, name: string) {
    exists i :: EntryAt(d.entries, name, i)
  }

  ghost predicate ListsCapability(fields: seq<Field>, id: string) {
    exists j :: LastCapabilities(fields, j) && Writes(fields[j], id)
  }

  ghost predicate RequiresArtifact(fields: seq<Field>, id: string) {
    exists j :: LastRequired(fields, j) && Writes(fields[j], id)
  }

  // In the file, the pack lists the capability.
  ghost predicate PackLists(d: Layout, pack: string, cap: string) {
    exists i :: EntryAt(d.entries, pack, i) && ListsCapability(d.entries[i].fields, cap)
  }

  // In the file, the capability requires the artifact.
  ghost predicate CapRequires(d: Layout, cap: string, id: string) {
    exists i :: EntryAt(d.entries, cap, i) && RequiresArtifact(d.entries[i].fields, id)
  }

  lemma {:induction false} IdsOfIff(parts: seq<FlowPart>, id: string)
    ensures id in IdsOf(parts) <==> exists k :: 0 <= k < |parts| && parts[k].Id? && parts[k].id == id
  {
    if |parts| > 0 {
      IdsOfIff(parts[1..], id);
      if k :| 0 <= k < |parts[1..]| && parts[1..][k].Id? && parts[1..][k].id == id {
        assert parts[k + 1].id == id;
      }
      if k :| 0 <= k < |parts| && parts[k].Id? && parts[k].id == id {
        assert k > 0 ==> parts[1..][k - 1] == parts[k];
      }
    }
  }

  lemma {:induction false} BlockIdsIff(items: seq<BlockLine>, id: string)
    ensures id in BlockIds(items) <==> exists k :: 0 <= k < |items| && items[k].BlockId? && items[k].id == id
  {
    if |items| > 0 {
      BlockIdsIff(items[1..], id);
      if k :| 0 <= k < |items[1..]| && items[1..][k].BlockId? && items[1..][k].id == id {
        assert items[k + 1].id == id;
      }
      if k :| 0 <= k < |items| && items[k].BlockId? && items[k].id == id {
        assert k > 0 ==> items[1..][k - 1] == items[k];
      }
    }
  }

  lemma {:induction false} FieldsBack(fields: seq<Field>, f: Field, e: Entry)
    ensures FieldsMeaning(fields + [f], e) == FieldMeaning(f, FieldsMeaning(fields, e))
    decreases |fields|
  {
    if |fields| == 0 {
      assert fields + [f] == [f] && [f][1..] == [];
    } else {
      assert (fields + [f])[0] == fields[0] && (fields + [f])[1..] == fields[1..] + [f];
      FieldsBack(fields[1..], f, FieldMeaning(fields[0], e));
    }
  }

  lemma FieldWrites(f: Field, e: Entry, id: string)
    ensures f.Capabilities? ==> (id in CapabilitiesOf(FieldMeaning(f, e)) <==> Writes(f, id))
    ensures !f.Capabilities? ==> CapabilitiesOf(FieldMeaning(f, e)) == CapabilitiesOf(e)
    ensures f.RequiredFlow? || f.RequiredBlock? ==> (id in RequiredOf(FieldMeaning(f, e)) <==> Writes(f, id))
    ensures !f.RequiredFlow? && !f.RequiredBlock? ==> RequiredOf(FieldMeaning(f, e)) == RequiredOf(e)
  {
    match f
    case Capabilities(_, parts, _) => IdsOfIff(parts, id);
    case RequiredFlow(_, parts, _) => IdsOfIff(parts, id);
    case RequiredBlock(_, items) => BlockIdsIff(items, id);
    case _ =>
  }

  lemma LastCapabilitiesBack(before: seq<Field>, f: Field, id: string)
    ensures ListsCapability(before + [f], id) <==> if f.Capabilities? then Writes(f, id) else ListsCapability(before, id)
  {
    var fields, n := before + [f], |before|;
    assert fields[n] == f && forall j :: 0 <= j < n ==> fields[j] == before[j];
    if f.Capabilities? {
      assert LastCapabilities(fields, n);
      assert forall j :: LastCapabilities(fields, j) ==> j == n;
    } else {
      forall j ensures LastCapabilities(fields, j) <==> LastCapabilities(before, j) {}
    }
  }

  lemma LastRequiredBack(before: seq<Field>, f: Field, id: string)
    ensures RequiresArtifact(before + [f], id)
       <==> if f.RequiredFlow? || f.RequiredBlock? then Writes(f, id) else RequiresArtifact(before, id)
  {
    var fields, n := before + [f], |before|;
    assert fields[n] == f && forall j :: 0 <= j < n ==> fields[j] == before[j];
    if f.RequiredFlow? || f.RequiredBlock? {
      assert LastRequired(fields, n);
      assert forall j :: LastRequired(fields, j) ==> j == n;
    } else {
      forall j ensures LastRequired(fields, j) <==> LastRequired(before, j) {}
    }
  }

  // What an entry lists and requires is what its last fields write.
  lemma {:induction false} EntryWrites(fields: seq<Field>, id: string)
    ensures id in CapabilitiesOf(FieldsMeaning(fields, EMPTY_ENTRY)) <==> ListsCapability(fields, id)
    ensures id in RequiredOf(FieldsMeaning(fields, EMPTY_ENTRY)) <==> RequiresArtifact(fields, id)
  {
    if |fields| > 0 {
      var before, f := fields[..|fields| - 1], fields[|fields| - 1];
      assert fields == before + [f];
      EntryWrites(before, id);
      FieldsBack(before, f, EMPTY_ENTRY);
      FieldWrites(f, FieldsMeaning(before, EMPTY_ENTRY), id);
      LastCapabilitiesBack(before, f, id);
      LastRequiredBack(before, f, id);
    }
  }

  lemma {:induction false} EntriesBack(entries: seq<EntryLayout>, e: EntryLayout, root: map<string, Entry>)
    ensures EntriesMeaning(entries + [e], root) == EntriesMeaning(entries, root)[e.name := FieldsMeaning(e.fields, EMPTY_ENTRY)]
    decreases |entries|
  {
    if |entries| == 0 {
      assert entries + [e] == [e] && [e][1..] == [];
    } else {
      assert (entries + [e])[0] == entries[0] && (entries + [e])[1..] == entries[1..] + [e];
      EntriesBack(entries[1..], e, root[entries[0].name := FieldsMeaning(entries[0].fields, EMPTY_ENTRY)]);
    }
  }

  lemma {:induction false} EntryMeans(entries: seq<EntryLayout>, name: string)
    ensures name in EntriesMeaning(entries, map[]) <==> exists i :: EntryAt(entries, name, i)
    ensures forall i :: EntryAt(entries, name, i) ==>
              name in EntriesMeaning(entries, map[])
              && EntriesMeaning(entries, map[])[name] == FieldsMeaning(entries[i].fields, EMPTY_ENTRY)
  {
    if |entries| > 0 {
      var n := |entries| - 1;
      var before, e := entries[..n], entries[n];
      assert entries == before + [e];
      EntryMeans(before, name);
      EntriesBack(before, e, map[]);
      if e.name == name {
        assert EntryAt(entries, name, n);
        assert forall i :: EntryAt(entries, name, i) ==> i == n;
      } else {
        forall i ensures EntryAt(entries, name, i) <==> EntryAt(before, name, i) {}
      }
    }
  }

  lemma EntryAtUnique(entries: seq<EntryLayout>, name: string, i: int, j: int)
    requires EntryAt(entries, name, i) && EntryAt(entries, name, j)
    ensures i == j
  {
  }

  lemma ListedIff(d: Layout, pack: string, cap: string)
    ensures pack in Meaning(d) <==> HasEntry(d, pack)
    ensures PackLists(d, pack, cap) <==> pack in Meaning(d) && cap in CapabilitiesOf(Meaning(d)[pack])
    ensures CapRequires(d, pack, cap) <==> pack in Meaning(d) && cap in RequiredOf(Meaning(d)[pack])
  {
    EntryMeans(d.entries, pack);
    if HasEntry(d, pack) {
      var i :| EntryAt(d.entries, pack, i);
      EntryWrites(d.entries[i].fields, cap);
      forall j | EntryAt(d.entries, pack, j) ensures i == j {
        EntryAtUnique(d.entries, pack, i, j);
      }
    }
  }

  // The two files, as the script reads them.
  ghost predicate Files(p: Layout, c: Layout, end: string, packages: Catalog, capabilities: Catalog) {
    && GoodLayout("packages", p) && GoodLayout("capabilities", c) && (end == "\n" || end == "\r\n")
    && packages == Parse("packages", SplitLines(Text(Render("packages", p), end)))
    && capabilities == Parse("capabilities", SplitLines(Text(Render("capabilities", c), end)))
  }

  // In the files, a selected pack lists the capability.
  ghost predicate SelectedIn(d: Layout, packs: seq<string>, cap: string) {
    exists pack :: pack in packs && PackLists(d, pack, cap)
  }

  // In the files, a selected capability requires the artifact under this name: an id without the white
  // space around it, unless nothing is left.
  ghost predicate RequiredIn(p: Layout, c: Layout, packs: seq<string>, x: string) {
    x != "" && exists cap, id :: SelectedIn(p, packs, cap) && CapRequires(c, cap, id) && x == Strip(id, IsSpace)
  }

  lemma SelectedIff(d: Layout, packs: seq<string>, cap: string)
    ensures cap in Selected(Meaning(d), packs) <==> SelectedIn(d, packs, cap)
  {
    forall pack ensures PackLists(d, pack, cap) <==> pack in Meaning(d) && cap in CapabilitiesOf(Meaning(d)[pack]) {
      ListedIff(d, pack, cap);
    }
  }

  lemma RequiredHas(capabilities: Catalog, caps: set<string>, cap: string, id: string)
    requires cap in caps && cap in capabilities && id in RequiredOf(capabilities[cap]) && ArtifactName(id) != ""
    ensures ArtifactName(id) in Required(capabilities, caps)
  {
  }

  lemma RequiredSource(capabilities: Catalog, caps: set<string>, x: string) returns (cap: string, id: string)
    requires x in Required(capabilities, caps)
    ensures cap in caps && cap in capabilities && id in RequiredOf(capabilities[cap]) && x == ArtifactName(id) != ""
  {
    cap, id :| cap in caps && cap in capabilities && id in RequiredOf(capabilities[cap])
               && ArtifactName(id) != "" && x == ArtifactName(id);
  }

  lemma RequiredIff(p: Layout, c: Layout, packs: seq<string>, x: string)
    ensures x in Required(Meaning(c), Selected(Meaning(p), packs)) <==> RequiredIn(p, c, packs, x)
  {
    var caps := Selected(Meaning(p), packs);
    if x in Required(Meaning(c), caps) {
      var cap, id := RequiredSource(Meaning(c), caps, x);
      SelectedIff(p, packs, cap);
      ListedIff(c, cap, id);
    }
    if RequiredIn(p, c, packs, x) {
      var cap, id :| SelectedIn(p, packs, cap) && CapRequires(c, cap, id) && x == Strip(id, IsSpace);
      SelectedIff(p, packs, cap);
      ListedIff(c, cap, id);
      RequiredHas(Meaning(c), caps, cap, id);
    }
  }

  // From the files to the artifacts: a selection requires exactly what is written for it.
  lemma RequiredFromFiles(p: Layout, c: Layout, end: string, packages: Catalog, capabilities: Catalog, packs: seq<string>, x: string)
    requires Files(p, c, end, packages, capabilities)
    ensures x in Required(capabilities, Selected(packages, packs)) <==> RequiredIn(p, c, packs, x)
  {
    FilesMean(p, c, end, packages, capabilities);
    RequiredIff(p, c, packs, x);
  }

  lemma FilesMean(p: Layout, c: Layout, end: string, packages: Catalog, capabilities: Catalog)
    requires Files(p, c, end, packages, capabilities)
    ensures packages == Meaning(p) && capabilities == Meaning(c)
  {
    ParseText("packages", p, end);
    ParseText("capabilities", c, end);
  }

  // The capability has an entry, and every id it requires there is blank or known.
  ghost predicate InOrder(known: seq<string>, d: Layout, cap: string) {
    && HasEntry(d, cap)
    && forall id :: CapRequires(d, cap, id) ==> Strip(id, IsSpace) == "" || Strip(id, IsSpace) in known
  }

  lemma InOrderIff(known: seq<string>, d: Layout, cap: string)
    ensures InOrder(known, d, cap) <==> cap in Meaning(d) && RequirementsKnown(known, Meaning(d)[cap])
  {
    ListedIff(d, cap, "");
    forall id ensures CapRequires(d, cap, id) <==> cap in Meaning(d) && id in RequiredOf(Meaning(d)[cap]) {
      ListedIff(d, cap, id);
    }
  }

  // A selection resolves exactly when every pack has an entry and every capability that one of them
  // lists is in order.
  lemma ResolvableFromFiles(known: seq<string>, p: Layout, c: Layout, end: string, packages: Catalog, capabilities: Catalog,
                            packs: seq<string>)
    requires Files(p, c, end, packages, capabilities)
    ensures Resolvable(known, packages, capabilities, packs) <==>
              && (forall pack :: pack in packs ==> HasEntry(p, pack))
              && (forall cap :: SelectedIn(p, packs, cap) ==> InOrder(known, c, cap))
  {
    FilesMean(p, c, end, packages, capabilities);
    forall pack ensures pack in Meaning(p) <==> HasEntry(p, pack) {
      ListedIff(p, pack, "");
    }
    forall cap
      ensures cap in Selected(Meaning(p), packs) <==> SelectedIn(p, packs, cap)
      ensures InOrder(known, c, cap) <==> cap in Meaning(c) && RequirementsKnown(known, Meaning(c)[cap])
    {
      SelectedIff(p, packs, cap);
      InOrderIff(known, c, cap);
    }
  }

  /******* The printed list *******/

  function In(artifacts: set<string>): (r: string -> bool) {
    (a: string) => a in artifacts
  }

  method OrderedArtifacts(known: seq<string>, artifacts: set<string>) returns (r: seq<string>)
    ensures r == Filter(known, In(artifacts))
  {
    r := [];
    for i := 0 to |known|
      invariant r == Filter(known[..i], In(artifacts))
    {
      assert known[..i + 1][..i] == known[..i];
      if known[i] in artifacts {
        r := r + [known[i]];
      }
    }
    assert known[..|known|] == known;
  }

  // b is obtained from a by leaving elements out.
  ghost predicate IsSubsequence(b: seq<string>, a: seq<string>) {
    if |b| == 0 then true
    else if |a| == 0 then false
    else
      || IsSubsequence(b, a[..|a| - 1])
      || (b[|b| - 1] == a[|a| - 1] && IsSubsequence(b[..|b| - 1], a[..|a| - 1]))
  }

  lemma {:induction false} FilterIsSubsequence(names: seq<string>, keep: string -> bool)
    ensures IsSubsequence(Filter(names, keep), names)
  {
    if |names| > 0 {
      var n := |names| - 1;
      var front := Filter(names[..n], keep);
      FilterIsSubsequence(names[..n], keep);
      if keep(names[n]) {
        var r := Filter(names, keep);
        assert r[..|r| - 1] == front;
      } else {
        assert Filter(names, keep) == front;
      }
    }
  }

  // What is printed for a resolved selection: exactly the required artifacts, once each, in the
  // order of the known list.
  lemma PrintedExact(known: seq<string>, packages: Catalog, capabilities: Catalog, packs: seq<string>)
    requires Distinct(known) && Resolvable(known, packages, capabilities, packs)
    ensures var printed := Filter(known, In(Required(capabilities, Selected(packages, packs))));
            && Distinct(printed) && IsSubsequence(printed, known)
            && forall x :: x in printed <==> x in Required(capabilities, Selected(packages, packs))
  {
    var required := Required(capabilities, Selected(packages, packs));
    FilterExact(known, In(required));
    FilterKeepsPairs(known, In(required), (a: string, b: string) => a != b);
    FilterIsSubsequence(known, In(required));
    forall x | x in required ensures x in known {
      var c, a :| c in Selected(packages, packs) && c in capabilities && a in RequiredOf(capabilities[c])
                  && ArtifactName(a) != "" && x == ArtifactName(a);
      assert IdKnown(known, a);
    }
  }

  // Two layouts of the same pair of catalogs resolve alike.
  lemma LayoutIrrelevant(known: seq<string>, packs: seq<string>, p: Layout, p': Layout, c: Layout, c': Layout)
    requires GoodLayout("packages", p) && GoodLayout("packages", p') && Meaning(p) == Meaning(p')
    requires GoodLayout("capabilities", c) && GoodLayout("capabilities", c') && Meaning(c) == Meaning(c')
    ensures var packages, capabilities := Parse("packages", Render("packages", p)), Parse("capabilities", Render("capabilities", c));
            var packages', capabilities' := Parse("packages", Render("packages", p')), Parse("capabilities", Render("capabilities", c'));
            && (Resolvable(known, packages, capabilities, packs) <==> Resolvable(known, packages', capabilities', packs))
            && Required(capabilities, Selected(packages, packs)) == Required(capabilities', Selected(packages', packs))
  {
    ParseRender("packages", p);
    ParseRender("packages", p');
    ParseRender("capabilities", c);
    ParseRender("capabilities", c');
  }

  /******* The known ids *******/

  lemma KnownArtifactsDistinct()
    ensures Distinct(KNOWN_ARTIFACTS) && |KNOWN_ARTIFACTS| == 24
  {
    forall i, j | 0 <= i < j < |KNOWN_ARTIFACTS| ensures KNOWN_ARTIFACTS[i] != KNOWN_ARTIFACTS[j] {
    }
  }

  // What the script prints for a resolved selection.
  lemma PrintedArtifacts(packages: Catalog, capabilities: Catalog, packs: seq<string>)
    requires Resolvable(KNOWN_ARTIFACTS, packages, capabilities, packs)
    ensures var required := Required(capabilities, Selected(packages, packs));
            var printed := Filter(KNOWN_ARTIFACTS, In(required));
            && Distinct(printed) && IsSubsequence(printed, KNOWN_ARTIFACTS)
            && forall x :: x in printed <==> x in required
  {
    KnownArtifactsDistinct();
    PrintedExact(KNOWN_ARTIFACTS, packages, capabilities, packs);
  }
}
