/**
 * What each query thread of the backend collects from the cache before it
 * sorts and emits: the candidate `(package, version)` pairs, package by
 * package, in cache order.
 */
module Queries {
  import opened Wrappers
  import opened PkEnums
  import opened AptCache
  import opened Ordering

  /** Which cache walk collects the candidates. */
  datatype Query =
    | ByName(m: Matcher)      // search-name
    | ByDetails(m: Matcher)   // search-details
    | ByGroup(g: Group)       // search-group
    | AllPackages             // get-packages

  /** One of the four descriptions of `v` matches. */
  predicate DescribedBy(m: Matcher, v: Version)
  {
    || Matches(m, v.descriptions.defaultShort)
    || Matches(m, v.descriptions.defaultLong)
    || Matches(m, v.descriptions.short)
    || Matches(m, v.descriptions.long)
  }

  /** The candidate the provider `o` of a virtual package contributes: its
      candidate version, if it has one and, when `filtered`, if its name or
      a description matches. */
  function ProviderHit(apt: Apt, m: Matcher, filtered: bool, o: nat): seq<Candidate>
    requires o < |apt.cache|
  {
    match apt.cache[o].candidate
    case None => []
    case Some(v) =>
      if !filtered || Matches(m, apt.cache[o].name) || DescribedBy(m, v) then [Candidate(o, v)] else []
  }

  /** The candidates from the first `k` providers of package `i`. */
  function ProviderHits(apt: Apt, m: Matcher, filtered: bool, i: nat, k: nat): seq<Candidate>
    requires Valid(apt) && i < |apt.cache| && k <= |apt.cache[i].providers|
    decreases k
  {
    if k == 0 then []
    else ProviderHits(apt, m, filtered, i, k - 1) + ProviderHit(apt, m, filtered, apt.cache[i].providers[k - 1])
  }

  /** What package `i` contributes to the candidates of query `q`. */
  function Hit(apt: Apt, q: Query, i: nat): seq<Candidate>
    requires Valid(apt) && i < |apt.cache|
  {
    if !Relevant(apt.cache[i]) then []
    else match q
      case ByName(m) => NameHit(apt, m, i)
      case ByDetails(m) => DetailsHit(apt, m, i)
      case _ => OwnHit(apt, q, i)
  }

  /** Group search and get-packages: the candidate version of package `i`
      itself, when it has one and (for a group search) its section maps to
      the group. */
  function OwnHit(apt: Apt, q: Query, i: nat): seq<Candidate>
    requires Valid(apt) && i < |apt.cache|
  {
    var p := apt.cache[i];
    if p.candidate.None? then []
    else if q.ByGroup? && GroupOf(apt, Section(p)) != q.g then []
    else [Candidate(i, p.candidate.value)]
  }

  /** Search-name: a matching name yields its candidate, or those of its providers. */
  function NameHit(apt: Apt, m: Matcher, i: nat): seq<Candidate>
    requires Valid(apt) && i < |apt.cache|
  {
    var p := apt.cache[i];
    if !Matches(m, p.name) then []
    else if p.candidate.Some? then [Candidate(i, p.candidate.value)]
    else ProviderHits(apt, m, false, i, |p.providers|)
  }

  /** Search-details: a matching name as in search-name; otherwise a matching
      description, or the providers whose name or description matches. */
  function DetailsHit(apt: Apt, m: Matcher, i: nat): seq<Candidate>
    requires Valid(apt) && i < |apt.cache|
  {
    var p := apt.cache[i];
    if Matches(m, p.name) then NameHit(apt, m, i)
    else if p.candidate.Some? then
      if DescribedBy(m, p.candidate.value) then [Candidate(i, p.candidate.value)] else []
    else ProviderHits(apt, m, true, i, |p.providers|)
  }

  /** The hit of every package of the cache, and nothing past its end. */
  function Hits(apt: Apt, q: Query): nat -> seq<Candidate>
  {
    (i: nat) => if Valid(apt) && i < |apt.cache| then Hit(apt, q, i) else []
  }

  /** The concatenation of `hit(0) .. hit(n-1)`, in that order. */
  function Gather(hit: nat -> seq<Candidate>, n: nat): seq<Candidate>
  {
    if n == 0 then [] else Gather(hit, n - 1) + hit(n - 1)
  }

  /** The `output` vector after the cache walk has looked at packages `0 .. n-1`. */
  function Collect(apt: Apt, q: Query, n: nat): seq<Candidate>
    requires Valid(apt) && n <= |apt.cache|
  {
    Gather(Hits(apt, q), n)
  }

  /** One more package walked adds its hit to the end of the vector. */
  lemma CollectNext(apt: Apt, q: Query, n: nat)
    requires Valid(apt) && n < |apt.cache|
    ensures Collect(apt, q, n + 1) == Collect(apt, q, n) + Hit(apt, q, n)
  {
  }

  /** The candidate names a package through its candidate version. */
  predicate Concrete(apt: Apt, c: Candidate)
  {
    c.pkg < |apt.cache| && apt.cache[c.pkg].candidate == Some(c.ver)
  }

  /** Package `i` lets `c` into a name search: `i` matches by name and is
      `c` itself with its candidate version, or `i` has no candidate and
      `c` is one of its providers with the provider's candidate version. */
  predicate NameAdmits(apt: Apt, m: Matcher, i: nat, c: Candidate)
    requires Valid(apt) && i < |apt.cache|
  {
    var p := apt.cache[i];
    && Relevant(p) && Matches(m, p.name)
    && (if p.candidate.Some? then c == Candidate(i, p.candidate.value)
        else c.pkg in p.providers && Concrete(apt, c))
  }

  /** Package `i` lets `c` into a group search. */
  predicate GroupAdmits(apt: Apt, g: Group, i: nat, c: Candidate)
    requires Valid(apt) && i < |apt.cache|
  {
    var p := apt.cache[i];
    Relevant(p) && p.candidate.Some? && GroupOf(apt, Section(p)) == g && c == Candidate(i, p.candidate.value)
  }

  lemma {:induction false} ProviderHitsSpec(apt: Apt, m: Matcher, filtered: bool, i: nat, k: nat, c: Candidate)
    requires Valid(apt) && i < |apt.cache| && k <= |apt.cache[i].providers|
    ensures c in ProviderHits(apt, m, filtered, i, k) <==>
      exists j :: 0 <= j < k && apt.cache[i].providers[j] == c.pkg && c in ProviderHit(apt, m, filtered, c.pkg)
    decreases k
  {
    if k > 0 {
      ProviderHitsSpec(apt, m, filtered, i, k - 1, c);
      var o := apt.cache[i].providers[k - 1];
      if c in ProviderHit(apt, m, filtered, o) {
        assert c.pkg == o;
      }
    }
  }

  /** Every gathered candidate comes from one of the parts gathered. */
  lemma {:induction false} GatherSource(hit: nat -> seq<Candidate>, n: nat, c: Candidate) returns (i: nat)
    requires c in Gather(hit, n)
    ensures i < n && c in hit(i)
  {
    if c in hit(n - 1) {
      i := n - 1;
    } else {
      i := GatherSource(hit, n - 1, c);
    }
  }

  /** Every candidate of a part gathered is gathered. */
  lemma {:induction false} GatherHas(hit: nat -> seq<Candidate>, n: nat, i: nat, c: Candidate)
    requires i < n && c in hit(i)
    ensures c in Gather(hit, n)
  {
    if i < n - 1 {
      GatherHas(hit, n - 1, i, c);
    }
  }

  /** Gathering parts that agree gives the same sequence. */
  lemma {:induction false} GatherSame(f: nat -> seq<Candidate>, g: nat -> seq<Candidate>, n: nat)
    requires forall i: nat :: i < n ==> f(i) == g(i)
    ensures Gather(f, n) == Gather(g, n)
  {
    if n > 0 {
      GatherSame(f, g, n - 1);
    }
  }

  /** Every collected candidate comes from the hit of a package walked. */
  lemma CollectSource(apt: Apt, q: Query, n: nat, c: Candidate) returns (i: nat)
    requires Valid(apt) && n <= |apt.cache| && c in Collect(apt, q, n)
    ensures i < n && c in Hit(apt, q, i)
  {
    i := GatherSource(Hits(apt, q), n, c);
  }

  /** Every hit of a package walked is collected. */
  lemma CollectHas(apt: Apt, q: Query, n: nat, i: nat, c: Candidate)
    requires Valid(apt) && i < n <= |apt.cache| && c in Hit(apt, q, i)
    ensures c in Collect(apt, q, n)
  {
    GatherHas(Hits(apt, q), n, i, c);
  }

  /** The walk collects exactly the hits of the packages it looked at. */
  lemma CollectSpec(apt: Apt, q: Query, n: nat, c: Candidate)
    requires Valid(apt) && n <= |apt.cache|
    ensures c in Collect(apt, q, n) <==> exists i :: 0 <= i < n && c in Hit(apt, q, i)
  {
    if c in Collect(apt, q, n) {
      var i := CollectSource(apt, q, n, c);
    }
    forall i | 0 <= i < n && c in Hit(apt, q, i)
      ensures c in Collect(apt, q, n)
    {
      CollectHas(apt, q, n, i, c);
    }
  }

  /** No query collects a package without a candidate version: a virtual
      package is never a candidate itself. */
  lemma CollectConcrete(apt: Apt, q: Query, n: nat, c: Candidate)
    requires Valid(apt) && n <= |apt.cache|
    requires c in Collect(apt, q, n)
    ensures Concrete(apt, c)
  {
    var i := CollectSource(apt, q, n, c);
    var p := apt.cache[i];
    if p.candidate.None? && (q.ByName? || q.ByDetails?) {
      var filtered := q.ByDetails? && !Matches(q.m, p.name);
      ProviderHitsSpec(apt, q.m, filtered, i, |p.providers|, c);
    }
  }

  /** A name search admits exactly the name-matching packages that have a
      candidate version and, in place of each name-matching virtual
      package, its providers that have one. */
  lemma SearchNameSpec(apt: Apt, m: Matcher, n: nat, c: Candidate)
    requires Valid(apt) && n <= |apt.cache|
    ensures c in Collect(apt, ByName(m), n) <==> exists i :: 0 <= i < n && NameAdmits(apt, m, i, c)
  {
    CollectSpec(apt, ByName(m), n, c);
    forall i | 0 <= i < n
      ensures c in Hit(apt, ByName(m), i) <==> NameAdmits(apt, m, i, c)
    {
      var p := apt.cache[i];
      ProviderHitsSpec(apt, m, false, i, |p.providers|, c);
      if c.pkg in p.providers && Concrete(apt, c) && p.candidate.None? {
        var j :| 0 <= j < |p.providers| && p.providers[j] == c.pkg;
        assert c in ProviderHit(apt, m, false, c.pkg);
      }
    }
  }

  /** A details search finds everything a name search finds. */
  lemma DetailsIncludesName(apt: Apt, m: Matcher, n: nat, c: Candidate)
    requires Valid(apt) && n <= |apt.cache|
    requires c in Collect(apt, ByName(m), n)
    ensures c in Collect(apt, ByDetails(m), n)
  {
    var i := CollectSource(apt, ByName(m), n, c);
    assert c in Hit(apt, ByDetails(m), i);
    CollectHas(apt, ByDetails(m), n, i, c);
  }

  /** A details search also admits a package whose name does not match when
      one of the four descriptions of its candidate version does. */
  lemma DetailsAdmitsDescribed(apt: Apt, m: Matcher, n: nat, i: nat)
    requires Valid(apt) && i < n <= |apt.cache|
    requires Relevant(apt.cache[i]) && apt.cache[i].candidate.Some?
    requires DescribedBy(m, apt.cache[i].candidate.value)
    ensures Candidate(i, apt.cache[i].candidate.value) in Collect(apt, ByDetails(m), n)
  {
    var c := Candidate(i, apt.cache[i].candidate.value);
    assert c in Hit(apt, ByDetails(m), i);
    CollectHas(apt, ByDetails(m), n, i, c);
  }

  /** A group search admits exactly the relevant packages with a candidate
      version whose section, after its last `/`, classifies into the group. */
  lemma SearchGroupSpec(apt: Apt, g: Group, n: nat, c: Candidate)
    requires Valid(apt) && n <= |apt.cache|
    ensures c in Collect(apt, ByGroup(g), n) <==> exists i :: 0 <= i < n && GroupAdmits(apt, g, i, c)
  {
    CollectSpec(apt, ByGroup(g), n, c);
    forall i | 0 <= i < n
      ensures c in Hit(apt, ByGroup(g), i) <==> GroupAdmits(apt, g, i, c)
    {
      GroupHit(apt, g, i, c);
    }
  }

  lemma GroupHit(apt: Apt, g: Group, i: nat, c: Candidate)
    requires Valid(apt) && i < |apt.cache|
    ensures c in Hit(apt, ByGroup(g), i) <==> GroupAdmits(apt, g, i, c)
  {
    assert Hit(apt, ByGroup(g), i) == if Relevant(apt.cache[i]) then OwnHit(apt, ByGroup(g), i) else [];
  }

  /** Get-packages admits exactly the relevant packages with a candidate version. */
  lemma GetPackagesSpec(apt: Apt, n: nat, c: Candidate)
    requires Valid(apt) && n <= |apt.cache|
    ensures c in Collect(apt, AllPackages, n) <==>
      c.pkg < n && Relevant(apt.cache[c.pkg]) && Concrete(apt, c)
  {
    CollectSpec(apt, AllPackages, n, c);
    if c.pkg < n && Relevant(apt.cache[c.pkg]) && Concrete(apt, c) {
      assert c in Hit(apt, AllPackages, c.pkg);
    }
  }

  /** Candidates with strictly increasing packages, all below `n`, stated
      from the back as the collecting loop appends. */
  predicate IncreasingBelow(s: seq<Candidate>, n: nat)
    decreases |s|
  {
    s == [] || (s[|s| - 1].pkg < n && IncreasingBelow(s[..|s| - 1], s[|s| - 1].pkg))
  }

  lemma {:induction false} IncreasingWeaken(s: seq<Candidate>, m: nat, n: nat)
    requires IncreasingBelow(s, m) && m <= n
    ensures IncreasingBelow(s, n)
  {
  }

  /** Increasing from the back means every earlier candidate names a
      smaller package than every later one. */
  lemma {:induction false} IncreasingPairs(s: seq<Candidate>, n: nat)
    requires IncreasingBelow(s, n)
    ensures forall a, b :: 0 <= a < b < |s| ==> s[a].pkg < s[b].pkg
    ensures forall a :: 0 <= a < |s| ==> s[a].pkg < n
    decreases |s|
  {
    if s != [] {
      var init := s[..|s| - 1];
      IncreasingPairs(init, s[|s| - 1].pkg);
      forall a | 0 <= a < |s| ensures s[a].pkg < n {
        if a < |init| {
          assert s[a] == init[a];
        }
      }
      forall a, b | 0 <= a < b < |s| ensures s[a].pkg < s[b].pkg {
        assert s[a] == init[a];
        if b < |init| {
          assert s[b] == init[b];
        }
      }
    }
  }

  /** The cache walk of group search and get-packages, which never looks
      at providers. */
  function OwnCollect(apt: Apt, q: Query, n: nat): seq<Candidate>
    requires Valid(apt) && n <= |apt.cache|
  {
    Gather(OwnSteps(apt, q), n)
  }

  /** The own step of every package of the cache, and nothing past its end. */
  function OwnSteps(apt: Apt, q: Query): nat -> seq<Candidate>
  {
    (i: nat) => if Valid(apt) && i < |apt.cache| then OwnStep(apt, q, i) else []
  }

  /** What package `i` adds to that walk: nothing, or its own candidate. */
  function OwnStep(apt: Apt, q: Query, i: nat): (h: seq<Candidate>)
    requires Valid(apt) && i < |apt.cache|
    ensures h == [] || (|h| == 1 && h[0].pkg == i)
  {
    if Relevant(apt.cache[i]) then OwnHit(apt, q, i) else []
  }

  lemma CollectOwn(apt: Apt, q: Query, n: nat)
    requires Valid(apt) && n <= |apt.cache|
    requires q.ByGroup? || q.AllPackages?
    ensures Collect(apt, q, n) == OwnCollect(apt, q, n)
  {
    forall i: nat | i < n
      ensures Hits(apt, q)(i) == OwnSteps(apt, q)(i)
    {
      HitIsOwn(apt, q, i);
    }
    GatherSame(Hits(apt, q), OwnSteps(apt, q), n);
  }

  /** Group search and get-packages take no other hit than the package's own. */
  lemma HitIsOwn(apt: Apt, q: Query, i: nat)
    requires Valid(apt) && i < |apt.cache|
    requires q.ByGroup? || q.AllPackages?
    ensures Hit(apt, q, i) == OwnStep(apt, q, i)
  {
  }

  /** Appending nothing, or one candidate of package `n - 1`, to a vector
      increasing below `n - 1` keeps it increasing below `n`. */
  lemma IncreasingSnoc(prev: seq<Candidate>, h: seq<Candidate>, n: nat)
    requires n > 0 && IncreasingBelow(prev, n - 1)
    requires h == [] || (|h| == 1 && h[0].pkg == n - 1)
    ensures IncreasingBelow(prev + h, n)
  {
    if h == [] {
      assert prev + h == prev;
      IncreasingWeaken(prev, n - 1, n);
    } else {
      var r := prev + h;
      assert r[..|r| - 1] == prev;
    }
  }

  lemma {:induction false} OwnCollectIncreasing(apt: Apt, q: Query, n: nat)
    requires Valid(apt) && n <= |apt.cache|
    ensures IncreasingBelow(OwnCollect(apt, q, n), n)
    decreases n
  {
    if n > 0 {
      OwnCollectIncreasing(apt, q, n - 1);
      IncreasingSnoc(OwnCollect(apt, q, n - 1), OwnStep(apt, q, n - 1), n);
    }
  }

  /** Group search and get-packages collect each package at most once, in
      cache order, so they need no duplicate removal. */
  lemma CollectIncreasing(apt: Apt, q: Query, n: nat)
    requires Valid(apt) && n <= |apt.cache|
    requires q.ByGroup? || q.AllPackages?
    ensures IncreasingBelow(Collect(apt, q, n), n)
  {
    CollectOwn(apt, q, n);
    OwnCollectIncreasing(apt, q, n);
  }

  /** Hence the collected candidates of these two walks are pairwise distinct packages. */
  lemma CollectDistinct(apt: Apt, q: Query, n: nat)
    requires Valid(apt) && n <= |apt.cache|
    requires q.ByGroup? || q.AllPackages?
    ensures forall a, b :: 0 <= a < b < |Collect(apt, q, n)| ==> Collect(apt, q, n)[a].pkg < Collect(apt, q, n)[b].pkg
  {
    CollectIncreasing(apt, q, n);
    IncreasingPairs(Collect(apt, q, n), n);
  }

  /** The candidates the depends (or requires) thread gathers for the packages `ps`. */
  function Deps(apt: Apt, depends: bool, ps: seq<nat>): seq<Candidate>
    decreases |ps|
  {
    if ps == [] then []
    else
      var last := ps[|ps| - 1];
      Deps(apt, depends, ps[..|ps| - 1]) + Related(apt, depends, last)
  }

  /** One more package's dependencies gathered. */
  lemma DepsSnoc(apt: Apt, depends: bool, ps: seq<nat>, p: nat)
    ensures Deps(apt, depends, ps + [p]) == Deps(apt, depends, ps) + Related(apt, depends, p)
  {
    assert (ps + [p])[..|ps|] == ps;
  }

  /** What one file owner name yields: its package with the candidate version, if both exist. */
  function FileHit(apt: Apt, name: string): (r: seq<Candidate>)
    ensures forall c :: c in r ==> Concrete(apt, c) && apt.cache[c.pkg].name == name
  {
    match Find(apt.cache, name)
    case None => []
    case Some(p) =>
      match apt.cache[p].candidate
      case None => []
      case Some(v) => [Candidate(p, v)]
  }

  /** What the search-file thread emits for the first `k` owner names. */
  function FileHits(apt: Apt, names: seq<string>, k: nat): (r: seq<Candidate>)
    requires k <= |names|
    ensures |r| <= k
    ensures forall c :: c in r ==> Concrete(apt, c)
    decreases k
  {
    if k == 0 then [] else FileHits(apt, names, k - 1) + FileHit(apt, names[k - 1])
  }

  /** One more owner name looked at. */
  lemma FileHitsNext(apt: Apt, names: seq<string>, k: nat)
    requires k < |names|
    ensures FileHits(apt, names, k + 1) == FileHits(apt, names, k) + FileHit(apt, names[k])
    ensures FileHit(apt, names[k]) == [] ==> FileHits(apt, names, k + 1) == FileHits(apt, names, k)
  {
    assert FileHits(apt, names, k) + [] == FileHits(apt, names, k);
  }

  /** The vector the sorting queries emit from: sorted and, for the
      deduplicating ones, with adjacent `result_equality` duplicates erased. */
  function Output(apt: Apt, collected: seq<Candidate>, dedup: bool): seq<Candidate>
  {
    var sorted := Sort(collected, apt.lt);
    if dedup then Unique(sorted, apt.eq) else sorted
  }

  /** The emitted vector is in `compare()` order; with duplicate removal no
      two neighbours are `result_equality`-equal, every collected candidate
      is represented and nothing new appears; without it the vector is a
      permutation of what was collected. */
  lemma OutputSpec(apt: Apt, collected: seq<Candidate>, dedup: bool)
    requires StrictWeakOrder(apt.lt)
    ensures Sorted(Output(apt, collected, dedup), apt.lt)
    ensures multiset(Output(apt, collected, dedup)) <= multiset(collected)
    ensures dedup ==> AdjacentDistinct(Output(apt, collected, dedup), apt.eq)
    ensures dedup && (forall a :: apt.eq(a, a)) ==>
      forall c :: c in collected ==> Represented(c, Output(apt, collected, dedup), apt.eq)
    ensures !dedup ==> multiset(Output(apt, collected, dedup)) == multiset(collected)
  {
    var sorted := Sort(collected, apt.lt);
    SortSorted(collected, apt.lt);
    if dedup {
      UniqueSorted(sorted, apt.lt, apt.eq);
      if forall a :: apt.eq(a, a) {
        UniqueCovers(sorted, apt.eq);
        forall c | c in collected ensures Represented(c, Output(apt, collected, dedup), apt.eq) {
          assert c in multiset(sorted);
        }
      }
    }
  }

  /** With `result_equality` identifying exactly what `compare()` cannot
      order, the deduplicated vector holds no two equal candidates at all. */
  lemma OutputDistinct(apt: Apt, collected: seq<Candidate>)
    requires StrictWeakOrder(apt.lt) && EqualityOf(apt.lt, apt.eq)
    ensures var r := Output(apt, collected, true);
      forall i, j :: 0 <= i < j < |r| ==> !apt.eq(r[i], r[j])
  {
    SortSorted(collected, apt.lt);
    NoDuplicates(Sort(collected, apt.lt), apt.lt, apt.eq);
  }
}
