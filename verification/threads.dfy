/**
 * What each query thread of the backend reports, as a function of the
 * cache, its arguments and the poll `cancelAt` before which a concurrent
 * `backend_cancel` lands (see Events). The backend's thread methods are
 * proved to append exactly these events; the lemmas here state what the
 * events promise.
 */
module Threads {
  import opened Wrappers
  import opened PkEnums
  import opened PackageIds
  import opened AptCache
  import opened Ordering
  import opened Queries
  import opened Events

  /** The events a thread appends and whether `_cancel` is set when it returns. */
  datatype Run = Run(events: seq<Event>, cancelled: bool)

  /** The first `Emitted(..)` entries of a sorted vector: what the emit loop gets out. */
  function Shown(out: seq<Candidate>, base: nat, cancelAt: nat): (r: seq<Candidate>)
    ensures |r| <= |out| && r == out[..|r|]
  {
    out[..Emitted(|out|, base, cancelAt)]
  }

  /** What is emitted is a prefix of the vector, so it keeps the vector's
      order and its freedom from adjacent duplicates. */
  lemma ShownKeeps(out: seq<Candidate>, base: nat, cancelAt: nat, lt: (Candidate, Candidate) -> bool, eq: (Candidate, Candidate) -> bool)
    ensures Sorted(out, lt) ==> Sorted(Shown(out, base, cancelAt), lt)
    ensures AdjacentDistinct(out, eq) ==> AdjacentDistinct(Shown(out, base, cancelAt), eq)
    ensures cancelAt >= base + |out| ==> Shown(out, base, cancelAt) == out
  {
  }

  // ---------------------------------------------------- depends / requires

  /** The sorted, deduplicated dependencies (or reverse dependencies) of the
      identifiers the collect loop got through. */
  function DependsOutput(apt: Apt, ids: seq<string>, depends: bool, cancelAt: nat): seq<Candidate>
  {
    Output(apt, Deps(apt, depends, LookupPrefix(apt, ids, Reached(|ids|, 0, cancelAt)).found), true)
  }

  /** `backend_get_depends_or_requires_thread`. */
  function DependsRun(apt: Apt, ids: seq<string>, filters: set<Filter>, depends: bool, cancelAt: nat): (r: Run)
    ensures r.events == [] <==> |ids| > 0 && Parse(ids[0]).Some? && apt.initFails
  {
    if |ids| == 0 || Parse(ids[0]).None? then Run([ErrorEvent(PackageIdInvalid), Finished], false)
    else if apt.initFails then Run([], false)
    else
      var l := LookupPrefix(apt, ids, Reached(|ids|, 0, cancelAt));
      if l.failure.Some? then Run([ErrorEvent(l.failure.value), Finished], false)
      else
        var out := DependsOutput(apt, ids, depends, cancelAt);
        var base := Polls(|ids|, 0, cancelAt);
        Run(Emits(filters, Shown(out, base, cancelAt)) + [Finished], cancelAt < base + |out|)
  }

  /** An identifier that does not parse or names no cache package ends the
      thread with exactly one error and `finished`, before anything is
      emitted; otherwise the emitted packages are in `compare()` order with
      no two neighbours `result_equality`-equal, followed by `finished`. */
  lemma DependsSpec(apt: Apt, ids: seq<string>, filters: set<Filter>, depends: bool, cancelAt: nat)
    requires StrictWeakOrder(apt.lt)
    ensures var es := DependsRun(apt, ids, filters, depends, cancelAt).events;
      && (es != [] ==> FinishedLast(es))
      && ((exists i :: 0 <= i < |es| && es[i].ErrorEvent?) ==>
            NoneEmitted(es) && |es| == 2 && es[0].code in {PackageIdInvalid, PackageNotFound})
      && (NoneEmitted(es) || (Sorted(DependsShown(apt, ids, depends, cancelAt), apt.lt)
                               && AdjacentDistinct(DependsShown(apt, ids, depends, cancelAt), apt.eq)
                               && es == Emits(filters, DependsShown(apt, ids, depends, cancelAt)) + [Finished]))
  {
    var es := DependsRun(apt, ids, filters, depends, cancelAt).events;
    if |ids| == 0 || Parse(ids[0]).None? {
      assert es == [ErrorEvent(PackageIdInvalid), Finished];
    } else if apt.initFails {
      assert es == [];
    } else {
      var l := LookupPrefix(apt, ids, Reached(|ids|, 0, cancelAt));
      if l.failure.Some? {
        assert es == [ErrorEvent(l.failure.value), Finished];
      } else {
        var out := DependsOutput(apt, ids, depends, cancelAt);
        var shown := DependsShown(apt, ids, depends, cancelAt);
        OutputSpec(apt, Deps(apt, depends, l.found), true);
        ShownKeeps(out, Polls(|ids|, 0, cancelAt), cancelAt, apt.lt, apt.eq);
        EmitsFinished(filters, shown);
      }
    }
  }

  /** The candidates the depends thread emits. */
  function DependsShown(apt: Apt, ids: seq<string>, depends: bool, cancelAt: nat): seq<Candidate>
  {
    Shown(DependsOutput(apt, ids, depends, cancelAt), Polls(|ids|, 0, cancelAt), cancelAt)
  }

  /** Without cancellation the error reported is that of the first failing
      identifier; a cancel during the collect loop emits nothing and still
      finishes. */
  lemma DependsFirstFailure(apt: Apt, ids: seq<string>, filters: set<Filter>, depends: bool, cancelAt: nat, j: nat)
    requires |ids| > 0 && Parse(ids[0]).Some? && !apt.initFails
    requires cancelAt >= |ids|
    requires j < |ids| && Lookup(apt, ids[j]).Err? && forall i :: 0 <= i < j ==> Lookup(apt, ids[i]).Ok?
    ensures DependsRun(apt, ids, filters, depends, cancelAt).events == [ErrorEvent(Lookup(apt, ids[j]).error), Finished]
  {
    var l := LookupPrefix(apt, ids, |ids|);
    LookupPrefixSpec(apt, ids, |ids|);
    assert Lookup(apt, ids[j]).Err?;
  }

  lemma DependsCancelledEarly(apt: Apt, ids: seq<string>, filters: set<Filter>, depends: bool, cancelAt: nat)
    requires |ids| > 0 && Parse(ids[0]).Some? && !apt.initFails
    requires cancelAt < |ids| && LookupPrefix(apt, ids, cancelAt).failure.None?
    ensures DependsRun(apt, ids, filters, depends, cancelAt) == Run([Finished], true)
  {
  }

  // -------------------------------------------------------- details / files

  /** One `emit_details` per package, in order. */
  function DetailsOf(ps: seq<nat>): (r: seq<Event>)
    ensures |r| == |ps| && forall i :: 0 <= i < |ps| ==> r[i] == EmitDetails(ps[i])
  {
    seq(|ps|, i requires 0 <= i < |ps| => EmitDetails(ps[i]))
  }

  /** One `emit_files` per identifier, in order. */
  function FilesOf(ids: seq<string>): (r: seq<Event>)
    ensures |r| == |ids| && forall i :: 0 <= i < |ids| ==> r[i] == EmitFiles(ids[i])
  {
    seq(|ids|, i requires 0 <= i < |ids| => EmitFiles(ids[i]))
  }

  /** `backend_get_details_thread` (`files` false) and `backend_get_files_thread`
      (`files` true): unlike the depends thread these emit as they go, so the
      packages before a failing identifier are reported before its error. */
  function DetailsRun(apt: Apt, ids: Option<seq<string>>, files: bool): (es: seq<Event>)
    ensures ids.None? ==> es == [ErrorEvent(PackageIdInvalid), Finished]
    ensures es == [] <==> ids.Some? && apt.initFails
  {
    match ids
    case None => [ErrorEvent(PackageIdInvalid), Finished]
    case Some(ids) =>
      if apt.initFails then []
      else
        var l := LookupPrefix(apt, ids, |ids|);
        (if files then FilesOf(ids[..|l.found|]) else DetailsOf(l.found))
        + (if l.failure.Some? then [ErrorEvent(l.failure.value), Finished] else [Finished])
  }

  /** One more package reported. */
  lemma DetailsOfSnoc(ps: seq<nat>, p: nat)
    ensures DetailsOf(ps + [p]) == DetailsOf(ps) + [EmitDetails(p)]
  {
  }

  /** One more identifier reported. */
  lemma FilesOfSnoc(ids: seq<string>, i: nat)
    requires i < |ids|
    ensures FilesOf(ids[..i + 1]) == FilesOf(ids[..i]) + [EmitFiles(ids[i])]
  {
  }

  /** Every identifier was found: all of them are reported, then `finished`. */
  lemma DetailsCompleted(apt: Apt, ids: seq<string>, files: bool)
    requires !apt.initFails && LookupPrefix(apt, ids, |ids|).failure.None?
    ensures DetailsRun(apt, Some(ids), files)
      == (if files then FilesOf(ids) else DetailsOf(LookupPrefix(apt, ids, |ids|).found)) + [Finished]
  {
    LookupPrefixSpec(apt, ids, |ids|);
    assert ids[..|ids|] == ids;
  }

  /** Identifier `i` is the first that fails: everything before it has been
      reported, then its error and `finished`. */
  lemma DetailsFailed(apt: Apt, ids: seq<string>, files: bool, i: nat)
    requires !apt.initFails && i < |ids|
    requires LookupPrefix(apt, ids, i).failure.None? && Lookup(apt, ids[i]).Err?
    ensures DetailsRun(apt, Some(ids), files)
      == (if files then FilesOf(ids[..i]) else DetailsOf(LookupPrefix(apt, ids, i).found))
         + [ErrorEvent(Lookup(apt, ids[i]).error), Finished]
  {
    LookupPrefixSpec(apt, ids, i);
    LookupStops(apt, ids, i + 1, |ids|);
  }

  /** With every identifier valid and present, details (or files) are
      reported for all of them, in order, then `finished`; otherwise for
      exactly those before the first failure, then its one error. */
  lemma DetailsSpec(apt: Apt, ids: seq<string>, files: bool)
    requires !apt.initFails
    ensures var es := DetailsRun(apt, Some(ids), files);
      var l := LookupPrefix(apt, ids, |ids|);
      && FinishedLast(es)
      && (l.failure.None? <==> forall i :: 0 <= i < |ids| ==> Lookup(apt, ids[i]).Ok?)
      && (l.failure.None? ==> |es| == |ids| + 1 && forall i :: 0 <= i < |ids| ==>
            es[i] == (if files then EmitFiles(ids[i]) else EmitDetails(Lookup(apt, ids[i]).value)))
      && (l.failure.Some? ==> |es| == |l.found| + 2 && es[|l.found|] == ErrorEvent(l.failure.value) && Lookup(apt, ids[|l.found|]) == Err(l.failure.value))
  {
    var es := DetailsRun(apt, Some(ids), files);
    var l := LookupPrefix(apt, ids, |ids|);
    LookupPrefixSpec(apt, ids, |ids|);
    var head := if files then FilesOf(ids[..|l.found|]) else DetailsOf(l.found);
    assert forall i :: 0 <= i < |head| ==> es[i] == head[i] && es[i] != Finished;
    if l.failure.None? {
      assert forall i :: 0 <= i < |ids| ==> Lookup(apt, ids[i]) == Ok(l.found[i]);
    } else {
      var f := |l.found|;
      assert Lookup(apt, ids[f]).Err?;
      assert es[f] == ErrorEvent(l.failure.value);
    }
  }

  // ------------------------------------------------------------ cache walks

  /** The polls of a full cache walk followed by the emit loop: what the
      search-name, search-details, search-group and get-packages threads
      emit once the cache is open. */
  function QueryShown(apt: Apt, q: Query, dedup: bool, cancelAt: nat): seq<Candidate>
    requires AptCache.Valid(apt)
  {
    var n := |apt.cache|;
    var out := Output(apt, Collect(apt, q, Reached(n, 0, cancelAt)), dedup);
    Shown(out, Polls(n, 0, cancelAt), cancelAt)
  }

  /** Whether `_cancel` is set when such a thread returns. */
  predicate QueryCancelled(apt: Apt, q: Query, dedup: bool, cancelAt: nat)
    requires AptCache.Valid(apt)
  {
    var n := |apt.cache|;
    var out := Output(apt, Collect(apt, q, Reached(n, 0, cancelAt)), dedup);
    cancelAt < Polls(n, 0, cancelAt) + |out|
  }

  /** `backend_search_package_thread` (name search, or details search when `details`). */
  function SearchPackageRun(apt: Apt, m: Matcher, details: bool, filters: set<Filter>, cancelAt: nat): (es: seq<Event>)
    requires AptCache.Valid(apt)
    ensures es == [] <==> m.hasError || apt.initFails || apt.pendingError
  {
    if m.hasError || apt.initFails || apt.pendingError then []
    else Emits(filters, QueryShown(apt, if details then ByDetails(m) else ByName(m), true, cancelAt)) + [Finished]
  }

  /** `backend_search_group_thread`; `group` None is a NULL group string. */
  function SearchGroupRun(apt: Apt, group: Option<string>, filters: set<Filter>, cancelAt: nat): (es: seq<Event>)
    requires AptCache.Valid(apt)
    ensures group.None? ==> es == [ErrorEvent(GroupNotFound), Finished]
    ensures es == [] <==> group.Some? && apt.initFails
  {
    match group
    case None => [ErrorEvent(GroupNotFound), Finished]
    case Some(g) =>
      if apt.initFails then []
      else Emits(filters, QueryShown(apt, ByGroup(TextGroup(apt, g)), false, cancelAt)) + [Finished]
  }

  /** `backend_get_packages_thread`. */
  function GetPackagesRun(apt: Apt, filters: set<Filter>, cancelAt: nat): (es: seq<Event>)
    requires AptCache.Valid(apt)
    ensures es == [] <==> apt.initFails
  {
    if apt.initFails then [] else Emits(filters, QueryShown(apt, AllPackages, false, cancelAt)) + [Finished]
  }

  /** Every cache walk emits in `compare()` order; the name and details
      searches never emit two adjacent `result_equality`-equal candidates,
      while group search and get-packages never collect one package twice;
      without a cancel the whole sorted vector is emitted: every collected
      candidate for the walks without dedup, and for the dedup searches a
      sub-multiset of the collected candidates that keeps an equal
      representative of each. */
  lemma QuerySpec(apt: Apt, q: Query, dedup: bool, cancelAt: nat)
    requires AptCache.Valid(apt) && StrictWeakOrder(apt.lt)
    ensures var shown := QueryShown(apt, q, dedup, cancelAt);
      && Sorted(shown, apt.lt)
      && (dedup ==> AdjacentDistinct(shown, apt.eq))
      && (cancelAt >= |apt.cache| + |Collect(apt, q, |apt.cache|)| && !dedup ==>
            multiset(shown) == multiset(Collect(apt, q, |apt.cache|)))
      && (cancelAt >= |apt.cache| + |Collect(apt, q, |apt.cache|)| && dedup ==>
            && multiset(shown) <= multiset(Collect(apt, q, |apt.cache|))
            && ((forall a :: apt.eq(a, a)) ==>
                  forall c :: c in Collect(apt, q, |apt.cache|) ==> Represented(c, shown, apt.eq)))
  {
    var n := |apt.cache|;
    var collected := Collect(apt, q, Reached(n, 0, cancelAt));
    var out := Output(apt, collected, dedup);
    OutputSpec(apt, collected, dedup);
    ShownKeeps(out, Polls(n, 0, cancelAt), cancelAt, apt.lt, apt.eq);
  }

  /** Group search and get-packages emit no package twice. */
  lemma WalkDistinct(apt: Apt, q: Query, cancelAt: nat)
    requires AptCache.Valid(apt) && StrictWeakOrder(apt.lt)
    requires q.ByGroup? || q.AllPackages?
    requires cancelAt >= |apt.cache| + |Collect(apt, q, |apt.cache|)|
    ensures var shown := QueryShown(apt, q, false, cancelAt);
      forall a, b :: 0 <= a < b < |shown| ==> shown[a].pkg != shown[b].pkg
  {
    var n := |apt.cache|;
    var collected := Collect(apt, q, n);
    var shown := QueryShown(apt, q, false, cancelAt);
    QuerySpec(apt, q, false, cancelAt);
    CollectDistinct(apt, q, n);
    forall a, b | 0 <= a < b < |shown| ensures shown[a].pkg != shown[b].pkg {
      CollectedOnce(collected, shown, a, b);
    }
  }

  /** Two positions of a permutation of a vector of distinct packages cannot
      hold the same package. */
  lemma CollectedOnce(collected: seq<Candidate>, shown: seq<Candidate>, a: nat, b: nat)
    requires forall x, y :: 0 <= x < y < |collected| ==> collected[x].pkg < collected[y].pkg
    requires multiset(shown) == multiset(collected)
    requires a < b < |shown|
    ensures shown[a].pkg != shown[b].pkg
  {
    if shown[a] == shown[b] {
      var c := shown[a];
      assert multiset(shown)[c] >= 2 by {
        assert shown == shown[..a] + [shown[a]] + shown[a + 1..b] + [shown[b]] + shown[b + 1..];
      }
      CountOne(collected, c);
    } else {
      assert shown[a] in multiset(collected) && shown[b] in multiset(collected);
      var x :| 0 <= x < |collected| && collected[x] == shown[a];
      var y :| 0 <= y < |collected| && collected[y] == shown[b];
      assert x != y;
      if x < y {
        assert collected[x].pkg < collected[y].pkg;
      } else {
        assert collected[y].pkg < collected[x].pkg;
      }
    }
  }

  lemma {:induction false} CountOne(s: seq<Candidate>, c: Candidate)
    requires forall x, y :: 0 <= x < y < |s| ==> s[x].pkg < s[y].pkg
    ensures multiset(s)[c] <= 1
    decreases |s|
  {
    if s != [] {
      var init := s[..|s| - 1];
      CountOne(init, c);
      assert s == init + [s[|s| - 1]];
      if init != [] && s[|s| - 1] == c {
        assert c !in init by {
          forall x | 0 <= x < |init| ensures init[x] != c {
            assert init[x].pkg < s[|s| - 1].pkg;
          }
        }
      }
    }
  }

  // ------------------------------------------------------------ search file

  /** `backend_search_file_thread`: only installed files can be searched, so
      a `~installed` filter finishes at once; otherwise each owner package
      with a candidate version is emitted as it is found, unsorted. */
  function SearchFileRun(apt: Apt, search: string, filters: set<Filter>, cancelAt: nat): (r: Run)
    ensures NotInstalled in filters ==> r == Run([Finished], false)
    ensures r.events == [] <==> NotInstalled !in filters && apt.initFails
  {
    if NotInstalled in filters then Run([Finished], false)
    else if apt.initFails then Run([], false)
    else
      var names := FileOwners(apt, search);
      Run(Emits(filters, FileHits(apt, names, Reached(|names|, 0, cancelAt))) + [Finished], cancelAt < |names|)
  }
}
