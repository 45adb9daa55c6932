/**
 The builder's Git credentials in the mock control plane, and the coverage of the hosts that the
 builder catalog requires.
 */
module GitAccess {
  import opened Strings
  import opened Sorting
  import opened LibraryPaths

  datatype Credential = Credential(name: string, host: string, username: string)

  datatype Status = Status(
    configured: bool,
    requiredHosts: seq<string>,
    coveredHosts: seq<string>,
    missingHosts: seq<string>,
    credentials: seq<Credential>)

  // A JavaScript Set of the hosts, in the order of first insertion.
  function HostsOf(credentials: seq<Credential>): (r: seq<string>) {
    if |credentials| == 0 then []
    else
      var n := |credentials| - 1;
      var before := HostsOf(credentials[..n]);
      if credentials[n].host in before then before else before + [credentials[n].host]
  }

  function NotIn(hosts: seq<string>): (r: string -> bool) {
    (h: string) => h !in hosts
  }

  // The status that goes with a list of credentials, in the order it will be kept.  The code takes
  // the hosts before it sorts the list; sorted themselves, they come out the same.
  function StatusFor(required: seq<string>, credentials: seq<Credential>, kept: seq<Credential>,
                     hostLe: (string, string) -> bool): (r: Status) {
    var covered := SortBy(hostLe, HostsOf(credentials));
    var missing := Filter(required, NotIn(covered));
    Status(if |required| == 0 then |credentials| > 0 else |missing| == 0, required, covered, missing, kept)
  }

  function ByName(le: (string, string) -> bool): (r: (Credential, Credential) -> bool) {
    (a: Credential, b: Credential) => le(a.name, b.name)
  }

  function NeitherNameNorHost(name: string, host: string): (r: Credential -> bool) {
    (c: Credential) => c.name != name && c.host != host
  }

  function NotNamed(name: string): (r: Credential -> bool) {
    (c: Credential) => c.name != name
  }

  /******* What every reachable state satisfies *******/

  ghost predicate DistinctCredentials(cs: seq<Credential>) {
    forall i, j :: 0 <= i < j < |cs| ==> cs[i].name != cs[j].name && cs[i].host != cs[j].host
  }

  ghost predicate HasHost(cs: seq<Credential>, h: string) {
    exists i :: 0 <= i < |cs| && cs[i].host == h
  }

  ghost predicate Consistent(s: Status, le: (string, string) -> bool, hostLe: (string, string) -> bool) {
    && DistinctCredentials(s.credentials)
    && (forall i, j :: 0 <= i < j < |s.credentials| ==> le(s.credentials[i].name, s.credentials[j].name))
    // covered hosts: those of the credentials, each once, sorted
    && Distinct(s.coveredHosts) && SortedBy(hostLe, s.coveredHosts)
    && (forall h :: h in s.coveredHosts <==> HasHost(s.credentials, h))
    // missing hosts: required and not covered
    && (forall h :: h in s.missingHosts <==> h in s.requiredHosts && h !in s.coveredHosts)
    && (s.configured <==> if |s.requiredHosts| == 0 then |s.credentials| > 0 else |s.missingHosts| == 0)
  }

  lemma {:induction false} HostsOfExact(cs: seq<Credential>)
    ensures Distinct(HostsOf(cs))
    ensures forall h :: h in HostsOf(cs) <==> HasHost(cs, h)
  {
    if |cs| > 0 {
      var n := |cs| - 1;
      HostsOfExact(cs[..n]);
      forall h ensures HasHost(cs, h) <==> HasHost(cs[..n], h) || cs[n].host == h {
        if i :| 0 <= i < n && cs[i].host == h {
          assert cs[..n][i].host == h;
        }
      }
    }
  }

  lemma StatusConsistent(required: seq<string>, cs: seq<Credential>, kept: seq<Credential>,
                         le: (string, string) -> bool, hostLe: (string, string) -> bool)
    requires TotalPreorder(hostLe) && multiset(cs) == multiset(kept)
    requires DistinctCredentials(kept) && SortedBy(ByName(le), kept)
    ensures Consistent(StatusFor(required, cs, kept, hostLe), le, hostLe)
  {
    var hosts := HostsOf(cs);
    assert forall i, j :: 0 <= i < j < |kept| ==> ByName(le)(kept[i], kept[j]);
    HostsOfExact(cs);
    SameHosts(cs, kept);
    SortBySorted(hostLe, hosts);
    SameElements(hosts, SortBy(hostLe, hosts));
    PermutationDistinct(hosts, SortBy(hostLe, hosts));
    FilterExact(required, NotIn(SortBy(hostLe, hosts)));
    assert |multiset(cs)| == |cs| && |multiset(kept)| == |kept|;
  }

  lemma SameHosts(a: seq<Credential>, b: seq<Credential>)
    requires multiset(a) == multiset(b)
    ensures forall h :: HasHost(a, h) <==> HasHost(b, h)
  {
    SameElements(a, b);
    forall i | 0 <= i < |a| ensures exists j :: 0 <= j < |b| && b[j].host == a[i].host {
      assert a[i] in a;
      var j :| 0 <= j < |b| && b[j] == a[i];
    }
    forall j | 0 <= j < |b| ensures exists i :: 0 <= i < |a| && a[i].host == b[j].host {
      assert b[j] in b;
      var i :| 0 <= i < |a| && a[i] == b[j];
    }
  }

  lemma FilterDistinct(cs: seq<Credential>, keep: Credential -> bool, le: (string, string) -> bool)
    requires DistinctCredentials(cs) && SortedBy(ByName(le), cs)
    ensures DistinctCredentials(Filter(cs, keep)) && SortedBy(ByName(le), Filter(cs, keep))
    ensures forall c :: c in Filter(cs, keep) <==> c in cs && keep(c)
  {
    FilterKeepsPairs(cs, keep, (a: Credential, b: Credential) => a.name != b.name && a.host != b.host);
    FilterKeepsPairs(cs, keep, ByName(le));
    FilterExact(cs, keep);
  }

  lemma DistinctPermutation(a: seq<Credential>, b: seq<Credential>)
    requires multiset(a) == multiset(b) && DistinctCredentials(a)
    ensures DistinctCredentials(b)
  {
    assert Distinct(a);
    PermutationDistinct(a, b);
    SameElements(a, b);
    forall i, j | 0 <= i < j < |b| ensures b[i].name != b[j].name && b[i].host != b[j].host {
      assert b[i] in a && b[j] in a;
    }
  }

  function Upserted(cs: seq<Credential>, added: Credential): (r: seq<Credential>) {
    Filter(cs, NeitherNameNorHost(added.name, added.host)) + [added]
  }

  lemma UpsertExact(cs: seq<Credential>, added: Credential, le: (string, string) -> bool)
    requires TotalPreorder(le) && DistinctCredentials(cs) && SortedBy(ByName(le), cs)
    ensures var sorted := SortBy(ByName(le), Upserted(cs, added));
            && DistinctCredentials(sorted) && SortedBy(ByName(le), sorted)
            && (forall c :: c in sorted <==> c == added || (c in cs && c.name != added.name && c.host != added.host))
  {
    var keep := NeitherNameNorHost(added.name, added.host);
    var kept, pushed := Filter(cs, keep), Upserted(cs, added);
    FilterDistinct(cs, keep, le);
    forall i | 0 <= i < |kept| ensures keep(kept[i]) {
      assert kept[i] in kept;
    }
    assert DistinctCredentials(pushed);
    var sorted := SortBy(ByName(le), pushed);
    SortBySorted(ByName(le), pushed);
    DistinctPermutation(pushed, sorted);
    SameElements(pushed, sorted);
  }

  /******* The operations *******/

  class Builder {
    var access: Status
    const le: (string, string) -> bool
    const hostLe: (string, string) -> bool

    ghost predicate Valid()
      reads this
    {
      TotalPreorder(le) && TotalPreorder(hostLe) && Consistent(access, le, hostLe)
    }

    constructor (le: (string, string) -> bool, hostLe: (string, string) -> bool)
      requires TotalPreorder(le) && TotalPreorder(hostLe)
      ensures Valid() && this.le == le && this.hostLe == hostLe
      ensures access.requiredHosts == ["git.example.internal"] && access.configured
    {
      var host := "git.example.internal";
      this.le, this.hostLe := le, hostLe;
      access := Status(true, [host], [host], [], [Credential("git-example-internal", host, "builder-bot")]);
      new;
      assert access.credentials[0].host == host;
    }

    // Adding a credential replaces those with its name and those for its host.
    method UpdateGitAccess(name: string, host: string, username: string) returns (ok: bool)
      requires Valid()
      modifies this`access
      ensures Valid() && access.requiredHosts == old(access.requiredHosts)
      ensures ok <==> Strip(name, IsSpace) != ""
      ensures !ok ==> access == old(access)
      ensures ok ==> var added := Credential(Strip(name, IsSpace), host, username);
                forall c :: c in access.credentials <==>
                  c == added || (c in old(access.credentials) && c.name != added.name && c.host != added.host)
    {
      var trimmed := Strip(name, IsSpace);
      if trimmed == "" {
        return false;
      }
      var credentials := Upserted(access.credentials, Credential(trimmed, host, username));
      UpsertExact(access.credentials, Credential(trimmed, host, username), le);
      var sorted := SortBy(ByName(le), credentials);
      StatusConsistent(access.requiredHosts, credentials, sorted, le, hostLe);
      access := StatusFor(access.requiredHosts, credentials, sorted, hostLe);
      ok := true;
    }

    method DeleteGitAccess(name: string)
      requires Valid()
      modifies this`access
      ensures Valid() && access.requiredHosts == old(access.requiredHosts)
      ensures forall c :: c in access.credentials <==> c in old(access.credentials) && c.name != name
    {
      var kept := Filter(access.credentials, NotNamed(name));
      FilterDistinct(access.credentials, NotNamed(name), le);
      StatusConsistent(access.requiredHosts, kept, kept, le, hostLe);
      access := StatusFor(access.requiredHosts, kept, kept, hostLe);
    }
  }
}
