/**
 * The parts of the APT package cache the backend reads, as plain values.
 *
 * A package iterator (`pkgCache::PkgIterator`) is an index into
 * `Apt.cache`; the facilities of the `aptcc` helper the backend calls but
 * whose code is not part of this model (cache opening, dependency
 * queries, file search, group classification, the result ordering) are
 * fields of `Apt`.
 */
module AptCache {
  import opened Wrappers
  import opened PkEnums
  import opened PackageIds

  /** The four descriptions of a version: default-locale short and long, localised short and long. */
  datatype Descriptions = Descriptions(defaultShort: string, defaultLong: string, short: string, long: string)

  /** A `pkgCache::VerIterator`: what the backend reads of a version. */
  datatype Version = Version(verStr: string, section: string, descriptions: Descriptions)

  /** A package: its name, its version list, the packages that provide it
      (`ProvidesList`, each entry the index of the owner package), and its
      candidate version (`find_ver`; None is the end iterator). */
  datatype Package = Package(name: string, versions: seq<Version>, providers: seq<nat>, candidate: Option<Version>)

  /** An entry of the backend's `output` vectors: a package and its version. */
  datatype Candidate = Candidate(pkg: nat, ver: Version)

  /** The compiled search expression of a name or details search. */
  datatype Matcher = Matcher(hasError: bool, matches: string -> bool)

  /**
   * An opened `aptcc` object together with the helpers the backend uses:
   * `initFails` is a non-zero result of `aptcc::init`, `pendingError` is
   * `_error->PendingError()`, `lt` is `compare()`, `eq` is
   * `result_equality()`, `dependsOf`/`requiredBy` are `get_depends` and
   * `get_requires`, `sectionGroup` is `get_enum_group`, `textGroup` is
   * `pk_group_enum_from_text`, and `fileOwners` is `search_file`.
   */
  datatype Apt = Apt(
    cache: seq<Package>,
    initFails: bool,
    pendingError: bool,
    lt: (Candidate, Candidate) -> bool,
    eq: (Candidate, Candidate) -> bool,
    dependsOf: nat -> seq<Candidate>,
    requiredBy: nat -> seq<Candidate>,
    sectionGroup: string -> Group,
    textGroup: string -> Group,
    fileOwners: string -> seq<string>)

  // The helpers applied through functions of their own, so that a method
  // and the function that specifies it apply them in the same way.

  /** `get_enum_group`: the group of a section name. */
  function GroupOf(apt: Apt, section: string): Group
  {
    apt.sectionGroup(section)
  }

  /** `pk_group_enum_from_text`: the group a group name stands for. */
  function TextGroup(apt: Apt, text: string): Group
  {
    apt.textGroup(text)
  }

  /** `search_file`: the names of the packages owning a file. */
  function FileOwners(apt: Apt, search: string): seq<string>
  {
    apt.fileOwners(search)
  }

  /** `get_depends` or `get_requires` of package `p`. */
  function Related(apt: Apt, depends: bool, p: nat): seq<Candidate>
  {
    if depends then apt.dependsOf(p) else apt.requiredBy(p)
  }

  /** The search pattern matches `s`. */
  predicate Matches(m: Matcher, s: string)
  {
    m.matches(s)
  }

  /** The cache is consistent: providers are packages of the cache, and a
      package with a candidate version has a version list. */
  predicate Valid(apt: Apt)
  {
    forall i :: 0 <= i < |apt.cache| ==> PackageValid(apt.cache, apt.cache[i])
  }

  predicate PackageValid(cache: seq<Package>, p: Package)
  {
    && (forall k :: 0 <= k < |p.providers| ==> p.providers[k] < |cache|)
    && (p.candidate.Some? ==> |p.versions| > 0)
  }

  /** Not a package that exists only because something depends on it:
      it has a version list or a provides list. */
  predicate Relevant(p: Package)
  {
    |p.versions| > 0 || |p.providers| > 0
  }

  /** `FindPkg(name)`: the package with that name, if any. */
  function Find(cache: seq<Package>, name: string): (r: Option<nat>)
    ensures r.Some? ==> r.value < |cache| && cache[r.value].name == name
    ensures r.None? ==> forall i :: 0 <= i < |cache| ==> cache[i].name != name
    decreases |cache|
  {
    if cache == [] then None
    else if cache[|cache| - 1].name == name then Some(|cache| - 1)
    else Find(cache[..|cache| - 1], name)
  }

  predicate NoSlash(s: string)
  {
    forall k :: 0 <= k < |s| ==> s[k] != '/'
  }

  /** `section.substr(section.find_last_of("/") + 1)`: the text after the
      last `/`, or the whole string when it has none. */
  function SectionTail(s: string): (r: string)
    ensures |r| <= |s| && r == s[|s| - |r|..]
    ensures NoSlash(r)
    ensures |r| == |s| <==> NoSlash(s)
    ensures |r| < |s| ==> s[|s| - |r| - 1] == '/'
    decreases |s|
  {
    if s == [] then []
    else if s[|s| - 1] == '/' then []
    else
      var r := SectionTail(s[..|s| - 1]) + [s[|s| - 1]];
      assert s == s[..|s| - 1] + [s[|s| - 1]];
      r
  }

  /** The section a package is classified by: that of the first entry of its version list. */
  function Section(p: Package): string
    requires |p.versions| > 0
  {
    SectionTail(p.versions[0].section)
  }

  /** One package identifier checked the way every identifier loop does:
      first parsed, then looked up by name. */
  function Lookup(apt: Apt, s: string): (r: Result<nat, ErrorCode>)
    ensures r.Ok? ==> r.value < |apt.cache|
    ensures r.Ok? <==> Parse(s).Some? && Find(apt.cache, Parse(s).value.name).Some?
    ensures r == Err(PackageIdInvalid) <==> Parse(s).None?
  {
    match Parse(s)
    case None => Err(PackageIdInvalid)
    case Some(id) =>
      match Find(apt.cache, id.name)
      case None => Err(PackageNotFound)
      case Some(p) => Ok(p)
  }

  /** The packages found for the first identifiers, up to the first failure, and that failure. */
  datatype Lookups = Lookups(found: seq<nat>, failure: Option<ErrorCode>)

  /** The identifiers `ids[..k]` checked in order, stopping at the first that fails. */
  function LookupPrefix(apt: Apt, ids: seq<string>, k: nat): (r: Lookups)
    requires k <= |ids|
    ensures |r.found| <= k
    ensures forall j :: 0 <= j < |r.found| ==> r.found[j] < |apt.cache|
    ensures r.failure.Some? ==> r.failure.value in {PackageIdInvalid, PackageNotFound}
    decreases k
  {
    if k == 0 then Lookups([], None)
    else
      var r := LookupPrefix(apt, ids, k - 1);
      if r.failure.Some? then r
      else match Lookup(apt, ids[k - 1])
        case Err(e) => Lookups(r.found, Some(e))
        case Ok(p) => Lookups(r.found + [p], None)
  }

  /** Once an identifier has failed, the later ones are never looked at. */
  lemma {:induction false} LookupStops(apt: Apt, ids: seq<string>, k: nat, k': nat)
    requires k <= k' <= |ids|
    requires LookupPrefix(apt, ids, k).failure.Some?
    ensures LookupPrefix(apt, ids, k') == LookupPrefix(apt, ids, k)
    decreases k' - k
  {
    if k < k' {
      LookupStops(apt, ids, k, k' - 1);
    }
  }

  /** The first identifier that fails is the failure of every longer prefix. */
  lemma {:induction false} LookupFailsAt(apt: Apt, ids: seq<string>, i: nat, k: nat)
    requires i < k <= |ids|
    requires LookupPrefix(apt, ids, i).failure.None? && Lookup(apt, ids[i]).Err?
    ensures LookupPrefix(apt, ids, k).failure == Some(Lookup(apt, ids[i]).error)
    decreases k
  {
    if i + 1 < k {
      LookupFailsAt(apt, ids, i, k - 1);
    }
  }

  /** Without a failure every identifier was found, in order; a failure
      names the first identifier that failed and how. */
  lemma {:induction false} LookupPrefixSpec(apt: Apt, ids: seq<string>, k: nat)
    requires k <= |ids|
    ensures var r := LookupPrefix(apt, ids, k);
      && (forall j :: 0 <= j < |r.found| ==> Lookup(apt, ids[j]) == Ok(r.found[j]))
      && (r.failure.None? ==> |r.found| == k)
      && (r.failure.Some? ==> |r.found| < k && Lookup(apt, ids[|r.found|]) == Err(r.failure.value))
    decreases k
  {
    if k > 0 {
      LookupPrefixSpec(apt, ids, k - 1);
      var r := LookupPrefix(apt, ids, k - 1);
      if r.failure.None? && Lookup(apt, ids[k - 1]).Ok? {
        var f := r.found + [Lookup(apt, ids[k - 1]).value];
        assert forall j :: 0 <= j < |r.found| ==> f[j] == r.found[j];
      }
    }
  }
}
