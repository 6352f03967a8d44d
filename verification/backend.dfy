/**
 * The backend itself: the module-level globals of the APT backend, the
 * state it sets on the daemon's `PkBackend` object (status, percentage,
 * allow-cancel, and every report as one append-only event log) and the
 * GLib timeout sources it schedules.
 *
 * Each handler and each timer callback is one method. A query thread is
 * one method call too; the concurrent `backend_cancel` it may race with is
 * the parameter `cancelAt` (see Events). Every method is proved to append
 * exactly the events the functions of Threads, Machines and Demo describe,
 * so the lemmas proved there are promises about this class.
 */
module Backend {
  import opened Wrappers
  import opened PkEnums
  import opened PackageIds
  import opened AptCache
  import opened Ordering
  import opened Queries
  import opened Events
  import opened Threads
  import opened Demo
  import opened Machines

  /** `PK_BACKEND_PERCENTAGE_INVALID`. */
  const PercentageInvalid: nat := 101

  /** The callback a GLib timeout source runs. */
  datatype Callback =
    | CancelTimeoutCb      // backend_cancel_timeout
    | UpdatesTimeoutCb     // backend_get_updates_timeout
    | InstallTimeoutCb     // backend_install_timeout
    | RefreshTimeoutCb     // backend_refresh_cache_timeout
    | DownloadTimeoutCb    // backend_update_packages_download_timeout
    | UpdateTimeoutCb      // backend_update_packages_update_timeout
    | SystemTimeoutCb      // backend_update_system_timeout

  class AptBackend {
    // The module-level globals.
    var cancel: bool              // _cancel
    var progress: nat             // _progress_percentage
    var signalTimeout: nat        // _signal_timeout; 0 is "no timer"
    var packageIds: seq<string>   // _package_ids
    var packageCurrent: nat       // _package_current
    var repos: RepoFlags          // _repo_enabled_*
    var updated: Updated          // _updated_*
    var hasSignature: bool        // _has_signature

    // What the backend has set on, and reported through, its PkBackend.
    var events: seq<Event>
    var status: Status
    var percentage: nat
    var subPercentageValid: bool
    var allowCancel: bool

    // The GLib timeout sources: live source ids and their callbacks, and
    // the id the next `g_timeout_add` returns.
    var sources: map<nat, Callback>
    var nextSource: nat

    /** Source ids are positive and handed out once; `_signal_timeout` is 0
        or an id handed out before (possibly one no longer live). */
    predicate Valid()
      reads this`sources, this`nextSource, this`signalTimeout
    {
      && nextSource >= 1
      && (forall id :: id in sources ==> 1 <= id < nextSource)
      && signalTimeout < nextSource
    }

    /** The globals at load time, and nothing reported yet. */
    constructor ()
      ensures Valid()
      ensures !cancel && progress == 0 && signalTimeout == 0 && packageIds == [] && packageCurrent == 0
      ensures repos == InitialRepos && updated == NoneUpdated && !hasSignature
      ensures events == [] && status == Unknown && percentage == PercentageInvalid
      ensures !subPercentageValid && !allowCancel
      ensures sources == map[] && nextSource == 1
    {
      cancel := false;
      progress := 0;
      signalTimeout := 0;
      packageIds := [];
      packageCurrent := 0;
      repos := InitialRepos;
      updated := NoneUpdated;
      hasSignature := false;
      events := [];
      status := Unknown;
      percentage := PercentageInvalid;
      subPercentageValid := false;
      allowCancel := false;
      sources := map[];
      nextSource := 1;
    }

    /** `g_timeout_add`: a fresh source id running `cb`. */
    method AddTimeout(cb: Callback) returns (id: nat)
      requires Valid()
      modifies this`sources, this`nextSource
      ensures Valid()
      ensures id == old(nextSource) && id !in old(sources) && id != 0 && id > old(signalTimeout)
      ensures sources == old(sources)[id := cb] && nextSource == id + 1
    {
      id := nextSource;
      sources := sources[id := cb];
      nextSource := nextSource + 1;
    }

    // ------------------------------------------------------------ cancel

    /** `backend_cancel`: always raises `_cancel`; if a timer is running it
        is removed and a deferred `backend_cancel_timeout` is scheduled.
        `_signal_timeout` keeps its value until that callback runs. */
    method Cancel()
      requires Valid()
      modifies this`cancel, this`sources, this`nextSource
      ensures Valid()
      ensures cancel
      ensures old(signalTimeout) == 0 ==> sources == old(sources) && nextSource == old(nextSource)
      ensures old(signalTimeout) != 0 ==>
        && nextSource == old(nextSource) + 1
        && sources == (old(sources) - {signalTimeout})[old(nextSource) := CancelTimeoutCb]
    {
      if signalTimeout != 0 {
        sources := sources - {signalTimeout};
        var _ := AddTimeout(CancelTimeoutCb);
      }
      cancel := true;
    }

    /** What one run of the cancel timeout does: the timer id is forgotten,
        the transaction ends with exactly one cancellation error and
        `finished`, the source is dropped, and nothing else changes. */
    twostate predicate CancelTicked(keep: bool)
      reads this`events, this`allowCancel, this`status, this`subPercentageValid, this`progress, this`percentage
      reads this`updated, this`packageCurrent, this`signalTimeout, this`nextSource, this`packageIds
    {
      && !keep && signalTimeout == 0
      && events == old(events) + [ErrorEvent(TransactionCancelled), Finished]
      && allowCancel == old(allowCancel) && status == old(status) && subPercentageValid == old(subPercentageValid)
      && progress == old(progress) && percentage == old(percentage) && updated == old(updated)
      && packageCurrent == old(packageCurrent) && nextSource == old(nextSource)
    }

    /** `backend_cancel_timeout`: cancelling is possible again, and the
        transaction ends with exactly one cancellation error and `finished`. */
    method CancelTimeout() returns (keep: bool)
      requires Valid()
      modifies this`signalTimeout, this`events
      ensures Valid()
      ensures CancelTicked(keep)
    {
      signalTimeout := 0;
      events := events + [ErrorEvent(TransactionCancelled)];
      events := events + [Finished];
      keep := false;
    }

    // ------------------------------------------------------- query threads

    /** The emit loop: one `emit_package` per entry of `out`, polling
        `_cancel` before each, after `base` earlier polls. `_cancel` is
        already set exactly when the cancel landed before them. */
    method EmitAll(filters: set<Filter>, out: seq<Candidate>, base: nat, cancelAt: nat)
      requires cancel <==> cancelAt < base
      modifies this`events, this`cancel
      ensures events == old(events) + Emits(filters, Shown(out, base, cancelAt))
      ensures cancel == (cancelAt < base + |out|)
    {
      var i := 0;
      while i < |out|
        invariant 0 <= i <= |out|
        invariant events == old(events) + Emits(filters, out[..i])
        invariant cancel <==> cancelAt < base
        invariant !cancel ==> base + i <= cancelAt
        invariant cancel ==> i == 0
      {
        if base + i == cancelAt {
          cancel := true;
        }
        if cancel {
          break;
        }
        assert out[..i + 1][..i] == out[..i];
        events := events + [EmitPackage(filters, out[i])];
        i := i + 1;
      }
      assert out[..i] == Shown(out, base, cancelAt);
    }

    /** The candidates of the provides list of virtual package `i`: each
        provider with a candidate version, and (when `filtered`) whose name
        or a description matches. */
    method ProviderLoop(apt: Apt, m: Matcher, filtered: bool, i: nat) returns (hits: seq<Candidate>)
      requires AptCache.Valid(apt) && i < |apt.cache|
      ensures hits == ProviderHits(apt, m, filtered, i, |apt.cache[i].providers|)
    {
      var prv := apt.cache[i].providers;
      hits := [];
      var k := 0;
      while k < |prv|
        invariant 0 <= k <= |prv|
        invariant hits == ProviderHits(apt, m, filtered, i, k)
      {
        var owner := prv[k];
        var ver := apt.cache[owner].candidate;
        if ver.Some? && (!filtered || Matches(m, apt.cache[owner].name) || DescribedBy(m, ver.value)) {
          hits := hits + [Candidate(owner, ver.value)];
        }
        k := k + 1;
      }
    }

    /** One iteration of a cache walk: what package `i` adds to `output`.
        Packages that exist only because something depends on them are skipped. */
    method HitOf(apt: Apt, q: Query, i: nat) returns (hit: seq<Candidate>)
      requires AptCache.Valid(apt) && i < |apt.cache|
      ensures hit == Hit(apt, q, i)
    {
      if !Relevant(apt.cache[i]) {
        return [];
      }
      match q
      case ByName(m) =>
        hit := NameHitOf(apt, m, i);
      case ByDetails(m) =>
        hit := DetailsHitOf(apt, m, i);
      case _ =>
        hit := OwnHitOf(apt, q, i);
    }

    /** A name-search iteration: a matching package with a candidate
        version, or else the providers of a matching virtual package. */
    method NameHitOf(apt: Apt, m: Matcher, i: nat) returns (hit: seq<Candidate>)
      requires AptCache.Valid(apt) && i < |apt.cache|
      ensures hit == NameHit(apt, m, i)
    {
      hit := [];
      var p := apt.cache[i];
      if Matches(m, p.name) {
        if p.candidate.Some? {
          hit := [Candidate(i, p.candidate.value)];
        } else {
          hit := ProviderLoop(apt, m, false, i);
        }
      }
    }

    /** A details-search iteration: as in a name search when the name
        matches; otherwise a package whose description matches, or the
        providers of a virtual package whose name or description matches. */
    method DetailsHitOf(apt: Apt, m: Matcher, i: nat) returns (hit: seq<Candidate>)
      requires AptCache.Valid(apt) && i < |apt.cache|
      ensures hit == DetailsHit(apt, m, i)
    {
      var p := apt.cache[i];
      if Matches(m, p.name) {
        hit := NameHitOf(apt, m, i);
      } else if p.candidate.Some? {
        hit := [];
        if DescribedBy(m, p.candidate.value) {
          hit := [Candidate(i, p.candidate.value)];
        }
      } else {
        hit := ProviderLoop(apt, m, true, i);
      }
    }

    /** A group-search or get-packages iteration: the package's own
        candidate version, for a group search only when the tail of its
        section maps to the group. */
    method OwnHitOf(apt: Apt, q: Query, i: nat) returns (hit: seq<Candidate>)
      requires AptCache.Valid(apt) && i < |apt.cache|
      ensures hit == OwnHit(apt, q, i)
    {
      var p := apt.cache[i];
      if p.candidate.None? {
        return [];
      }
      if q.ByGroup? {
        var section := Section(p);
        if q.g != GroupOf(apt, section) {
          return [];
        }
      }
      hit := [Candidate(i, p.candidate.value)];
    }

    /** The collect loop of a cache walk, polling `_cancel` at the head of
        every iteration. */
    method CollectCache(apt: Apt, q: Query, cancelAt: nat) returns (output: seq<Candidate>)
      requires AptCache.Valid(apt) && !cancel
      modifies this`cancel
      ensures output == Collect(apt, q, Reached(|apt.cache|, 0, cancelAt))
      ensures cancel == (cancelAt < |apt.cache|)
    {
      output := [];
      var i := 0;
      while i < |apt.cache|
        invariant 0 <= i <= |apt.cache| && i <= cancelAt
        invariant output == Collect(apt, q, i)
        invariant !cancel
      {
        if i == cancelAt {
          cancel := true;
        }
        if cancel {
          break;
        }
        var hit := HitOf(apt, q, i);
        CollectNext(apt, q, i);
        output := output + hit;
        i := i + 1;
      }
    }

    /** One identifier checked the way every identifier loop does: parsed
        with `pk_package_id_new_from_string`, then looked up by name. */
    method LookupId(apt: Apt, s: string) returns (r: Result<nat, ErrorCode>)
      ensures r == Lookup(apt, s)
    {
      var pi := Parse(s);
      if pi.None? {
        return Err(PackageIdInvalid);
      }
      var pkg := Find(apt.cache, pi.value.name);
      if pkg.None? {
        return Err(PackageNotFound);
      }
      return Ok(pkg.value);
    }

    /** `backend_get_depends_or_requires_thread` (`depends` is the
        "get_depends" flag). */
    method GetDependsOrRequires(apt: Apt, ids: seq<string>, filters: set<Filter>, depends: bool, cancelAt: nat)
      modifies this`events, this`cancel, this`status, this`allowCancel
      ensures events == old(events) + DependsRun(apt, ids, filters, depends, cancelAt).events
      ensures cancel == DependsRun(apt, ids, filters, depends, cancelAt).cancelled
      ensures allowCancel
      ensures status == if |ids| > 0 && Parse(ids[0]).Some? then Query else old(status)
    {
      cancel := false;
      allowCancel := true;
      if |ids| == 0 || Parse(ids[0]).None? {
        events := events + [ErrorEvent(PackageIdInvalid), Finished];
        return;
      }
      status := Query;
      if apt.initFails {
        return;
      }
      var output, failure := DependsLoop(apt, ids, depends, cancelAt);
      if failure.Some? {
        events := events + [ErrorEvent(failure.value), Finished];
        return;
      }
      output := Output(apt, output, true);
      DependsCompleted(apt, ids, filters, depends, cancelAt);
      EmitFinished(filters, output, Polls(|ids|, 0, cancelAt), cancelAt);
    }

    /** The collect loop of the depends thread: each identifier is parsed
        and looked up, polling `_cancel` first, and the dependencies (or
        reverse dependencies) of the packages found are gathered. On a
        failure the thread reports it and stops without emitting anything. */
    method DependsLoop(apt: Apt, ids: seq<string>, depends: bool, cancelAt: nat)
      returns (output: seq<Candidate>, failure: Option<ErrorCode>)
      requires !cancel
      modifies this`cancel
      ensures failure == LookupPrefix(apt, ids, Reached(|ids|, 0, cancelAt)).failure
      ensures failure.None? ==> output == Deps(apt, depends, LookupPrefix(apt, ids, Reached(|ids|, 0, cancelAt)).found)
      ensures cancel == (failure.None? && cancelAt < |ids|)
    {
      output := [];
      ghost var found: seq<nat> := [];
      var i := 0;
      while i < |ids|
        invariant 0 <= i <= |ids| && i <= cancelAt
        invariant LookupPrefix(apt, ids, i) == Lookups(found, None)
        invariant output == Deps(apt, depends, found)
        invariant !cancel
      {
        if i == cancelAt {
          cancel := true;
          break;
        }
        var pkg;
        pkg, output := DependsStep(apt, ids, depends, i, found, output);
        if pkg.Err? {
          LookupFailsAt(apt, ids, i, Reached(|ids|, 0, cancelAt));
          return output, Some(pkg.error);
        }
        found := found + [pkg.value];
        i := i + 1;
      }
      assert LookupPrefix(apt, ids, Reached(|ids|, 0, cancelAt)).found == found;
      failure := None;
    }

    /** One identifier of the depends loop past its `_cancel` poll: looked
        up, and the dependencies (or reverse dependencies) of the package
        found appended to `output`. */
    method DependsStep(apt: Apt, ids: seq<string>, depends: bool, i: nat, ghost found: seq<nat>, output: seq<Candidate>)
      returns (pkg: Result<nat, ErrorCode>, output': seq<Candidate>)
      requires i < |ids| && LookupPrefix(apt, ids, i) == Lookups(found, None)
      requires output == Deps(apt, depends, found)
      ensures pkg == Lookup(apt, ids[i])
      ensures pkg.Ok? ==> LookupPrefix(apt, ids, i + 1) == Lookups(found + [pkg.value], None)
      ensures pkg.Ok? ==> output' == Deps(apt, depends, found + [pkg.value])
    {
      pkg := LookupId(apt, ids[i]);
      output' := output;
      if pkg.Ok? {
        DepsSnoc(apt, depends, found, pkg.value);
        output' := output + Related(apt, depends, pkg.value);
      }
    }

    /** `backend_get_details_thread`; `ids` None is a NULL id list. */
    method GetDetails(apt: Apt, ids: Option<seq<string>>)
      modifies this`events, this`status
      ensures events == old(events) + DetailsRun(apt, ids, false)
      ensures status == if ids.Some? then Query else old(status)
    {
      if ids.None? {
        events := events + [ErrorEvent(PackageIdInvalid), Finished];
        return;
      }
      status := Query;
      if apt.initFails {
        return;
      }
      DetailsLoop(apt, ids.value);
    }

    /** The identifier loop of the details thread: each identifier is
        parsed, looked up and its details emitted at once. */
    method DetailsLoop(apt: Apt, ids: seq<string>)
      requires !apt.initFails
      modifies this`events
      ensures events == old(events) + DetailsRun(apt, Some(ids), false)
    {
      ghost var found: seq<nat> := [];
      var i := 0;
      while i < |ids|
        invariant 0 <= i <= |ids|
        invariant LookupPrefix(apt, ids, i) == Lookups(found, None)
        invariant events == old(events) + DetailsOf(found)
      {
        LookupPrefixSpec(apt, ids, i);
        var pkg := LookupId(apt, ids[i]);
        if pkg.Err? {
          DetailsFailed(apt, ids, false, i);
          AppendAssoc(old(events), DetailsOf(found), [ErrorEvent(pkg.error), Finished]);
          events := events + [ErrorEvent(pkg.error), Finished];
          return;
        }
        DetailsOfSnoc(found, pkg.value);
        AppendAssoc(old(events), DetailsOf(found), [EmitDetails(pkg.value)]);
        events := events + [EmitDetails(pkg.value)];
        found := found + [pkg.value];
        i := i + 1;
      }
      DetailsCompleted(apt, ids, false);
      AppendAssoc(old(events), DetailsOf(found), [Finished]);
      events := events + [Finished];
    }

    /** `backend_get_files_thread`; `ids` None is a NULL id list. */
    method GetFiles(apt: Apt, ids: Option<seq<string>>)
      modifies this`events, this`status
      ensures events == old(events) + DetailsRun(apt, ids, true)
      ensures status == if ids.Some? then Query else old(status)
    {
      if ids.None? {
        events := events + [ErrorEvent(PackageIdInvalid), Finished];
        return;
      }
      status := Query;
      if apt.initFails {
        return;
      }
      FilesLoop(apt, ids.value);
    }

    /** The identifier loop of the files thread: each identifier is parsed
        and looked up, and its file list emitted at once. */
    method FilesLoop(apt: Apt, ids: seq<string>)
      requires !apt.initFails
      modifies this`events
      ensures events == old(events) + DetailsRun(apt, Some(ids), true)
    {
      ghost var found: seq<nat> := [];
      var i := 0;
      while i < |ids|
        invariant 0 <= i <= |ids|
        invariant LookupPrefix(apt, ids, i) == Lookups(found, None)
        invariant events == old(events) + FilesOf(ids[..i])
      {
        LookupPrefixSpec(apt, ids, i);
        var pkg := LookupId(apt, ids[i]);
        if pkg.Err? {
          DetailsFailed(apt, ids, true, i);
          AppendAssoc(old(events), FilesOf(ids[..i]), [ErrorEvent(pkg.error), Finished]);
          events := events + [ErrorEvent(pkg.error), Finished];
          return;
        }
        FilesOfSnoc(ids, i);
        AppendAssoc(old(events), FilesOf(ids[..i]), [EmitFiles(ids[i])]);
        events := events + [EmitFiles(ids[i])];
        found := found + [pkg.value];
        i := i + 1;
      }
      assert ids[..i] == ids;
      DetailsCompleted(apt, ids, true);
      AppendAssoc(old(events), FilesOf(ids), [Finished]);
      events := events + [Finished];
    }

    /** The emit loop followed by `finished`. */
    method EmitFinished(filters: set<Filter>, out: seq<Candidate>, base: nat, cancelAt: nat)
      requires cancel <==> cancelAt < base
      modifies this`events, this`cancel
      ensures events == old(events) + (Emits(filters, Shown(out, base, cancelAt)) + [Finished])
      ensures cancel == (cancelAt < base + |out|)
    {
      EmitAll(filters, out, base, cancelAt);
      events := events + [Finished];
    }

    method Walk(apt: Apt, q: Query, dedup: bool, filters: set<Filter>, cancelAt: nat)
      requires AptCache.Valid(apt) && !cancel
      modifies this`events, this`cancel
      ensures events == old(events) + (Emits(filters, QueryShown(apt, q, dedup, cancelAt)) + [Finished])
      ensures cancel == QueryCancelled(apt, q, dedup, cancelAt)
    {
      var output := CollectCache(apt, q, cancelAt);
      output := Output(apt, output, dedup);
      EmitFinished(filters, output, Polls(|apt.cache|, 0, cancelAt), cancelAt);
    }

    /** `backend_search_group_thread`; `group` None is a NULL group string. */
    method SearchGroup(apt: Apt, group: Option<string>, filters: set<Filter>, cancelAt: nat)
      requires AptCache.Valid(apt)
      modifies this`events, this`cancel, this`status, this`allowCancel, this`percentage
      ensures events == old(events) + SearchGroupRun(apt, group, filters, cancelAt)
      ensures allowCancel
      ensures cancel == (group.Some? && !apt.initFails && QueryCancelled(apt, ByGroup(TextGroup(apt, group.value)), false, cancelAt))
      ensures status == if group.Some? then Query else old(status)
      ensures percentage == if group.None? then old(percentage) else if apt.initFails then 0 else 100
    {
      cancel := false;
      allowCancel := true;
      if group.None? {
        events := events + [ErrorEvent(GroupNotFound), Finished];
        return;
      }
      status := Query;
      percentage := 0;
      var g := TextGroup(apt, group.value);
      if apt.initFails {
        return;
      }
      Walk(apt, ByGroup(g), false, filters, cancelAt);
      percentage := 100;
    }

    /** `backend_search_package_thread`: a name search, or a details search
        when the "search_details" flag is set. */
    method SearchPackage(apt: Apt, m: Matcher, details: bool, filters: set<Filter>, cancelAt: nat)
      requires AptCache.Valid(apt)
      modifies this`events, this`cancel, this`status, this`allowCancel, this`percentage
      ensures events == old(events) + SearchPackageRun(apt, m, details, filters, cancelAt)
      ensures allowCancel && status == Query
      ensures cancel == (!(m.hasError || apt.initFails || apt.pendingError)
                         && QueryCancelled(apt, if details then ByDetails(m) else ByName(m), true, cancelAt))
      ensures percentage == if m.hasError || apt.initFails || apt.pendingError then PercentageInvalid else 100
    {
      percentage := PercentageInvalid;
      cancel := false;
      allowCancel := true;
      status := Query;
      if m.hasError || apt.initFails || apt.pendingError {
        return;
      }
      Walk(apt, if details then ByDetails(m) else ByName(m), true, filters, cancelAt);
      percentage := 100;
    }

    /** `backend_get_packages_thread`. */
    method GetPackages(apt: Apt, filters: set<Filter>, cancelAt: nat)
      requires AptCache.Valid(apt)
      modifies this`events, this`cancel, this`status, this`allowCancel
      ensures events == old(events) + GetPackagesRun(apt, filters, cancelAt)
      ensures allowCancel && status == Query
      ensures cancel == (!apt.initFails && QueryCancelled(apt, AllPackages, false, cancelAt))
    {
      status := Query;
      cancel := false;
      allowCancel := true;
      if apt.initFails {
        return;
      }
      Walk(apt, AllPackages, false, filters, cancelAt);
    }

    /** `backend_search_file_thread`: the owners of `search` are emitted as
        they are found, skipping names without a candidate version. */
    method SearchFile(apt: Apt, search: string, filters: set<Filter>, cancelAt: nat)
      modifies this`events, this`cancel, this`status, this`allowCancel
      ensures events == old(events) + SearchFileRun(apt, search, filters, cancelAt).events
      ensures cancel == SearchFileRun(apt, search, filters, cancelAt).cancelled
      ensures allowCancel && status == Query
    {
      status := Query;
      cancel := false;
      allowCancel := true;
      if NotInstalled !in filters {
        if apt.initFails {
          return;
        }
        var packages := FileOwners(apt, search);
        FileLoop(apt, packages, filters, cancelAt);
        AppendAssoc(old(events), Emits(filters, FileHits(apt, packages, Reached(|packages|, 0, cancelAt))), [Finished]);
      }
      events := events + [Finished];
    }

    /** One owner name of the search-file loop: `FindPkg`, then the
        candidate version; None where the loop goes on to the next name. */
    method FileHitOf(apt: Apt, name: string) returns (hit: Option<Candidate>)
      ensures FileHit(apt, name) == if hit.Some? then [hit.value] else []
    {
      var pkg := Find(apt.cache, name);
      if pkg.None? {
        return None;
      }
      var ver := apt.cache[pkg.value].candidate;
      if ver.None? {
        return None;
      }
      return Some(Candidate(pkg.value, ver.value));
    }

    /** One iteration of the search-file loop past its `_cancel` poll: the
        name's candidate, if any, is emitted. */
    method FileStep(apt: Apt, packages: seq<string>, filters: set<Filter>, i: nat, ghost before: seq<Event>)
      requires i < |packages| && events == before + Emits(filters, FileHits(apt, packages, i))
      modifies this`events
      ensures events == before + Emits(filters, FileHits(apt, packages, i + 1))
    {
      var hit := FileHitOf(apt, packages[i]);
      if hit.Some? {
        FileEmitNext(apt, packages, filters, i, hit.value);
        AppendAssoc(before, Emits(filters, FileHits(apt, packages, i)), [EmitPackage(filters, hit.value)]);
        events := events + [EmitPackage(filters, hit.value)];
      } else {
        FileHitsNext(apt, packages, i);
      }
    }

    /** One iteration of the search-file loop: the `_cancel` poll, which
        breaks off where the cancel lands, then the owner name. */
    method FileIteration(apt: Apt, packages: seq<string>, filters: set<Filter>, i: nat, cancelAt: nat, ghost before: seq<Event>)
      returns (stop: bool)
      requires i < |packages| && i <= cancelAt && !cancel
      requires events == before + Emits(filters, FileHits(apt, packages, i))
      modifies this`events, this`cancel
      ensures stop == (i == cancelAt) && cancel == stop
      ensures stop ==> events == old(events)
      ensures !stop ==> events == before + Emits(filters, FileHits(apt, packages, i + 1))
    {
      if i == cancelAt {
        cancel := true;
        return true;
      }
      FileStep(apt, packages, filters, i, before);
      return false;
    }

    /** The loop of the search-file thread over the owner names, polling
        `_cancel` at the head of every iteration. */
    method FileLoop(apt: Apt, packages: seq<string>, filters: set<Filter>, cancelAt: nat)
      requires !cancel
      modifies this`events, this`cancel
      ensures events == old(events) + Emits(filters, FileHits(apt, packages, Reached(|packages|, 0, cancelAt)))
      ensures cancel == (cancelAt < |packages|)
    {
      ghost var start := events;
      var i := 0;
      while i < |packages|
        invariant 0 <= i <= |packages| && i <= cancelAt
        invariant events == start + Emits(filters, FileHits(apt, packages, i))
        invariant !cancel
      {
        var stop := FileIteration(apt, packages, filters, i, cancelAt, start);
        if stop {
          break;
        }
        i := i + 1;
      }
      assert Reached(|packages|, 0, cancelAt) == i;
    }

    // -------------------------------------------------------- install

    /** `backend_install_packages`: `vips-doc` is refused without the
        signature or the licence; otherwise the install timer starts. */
    method InstallPackages(ids: seq<string>, eulaValid: bool)
      requires Valid()
      modifies this`events, this`allowCancel, this`progress, this`signalTimeout, this`sources, this`nextSource
      ensures Valid()
      ensures InstallRefusal(ids, hasSignature, eulaValid).Some? ==>
        && events == old(events) + InstallRefusal(ids, hasSignature, eulaValid).value
        && allowCancel == old(allowCancel) && progress == old(progress)
        && signalTimeout == old(signalTimeout) && sources == old(sources) && nextSource == old(nextSource)
      ensures InstallRefusal(ids, hasSignature, eulaValid).None? ==>
        && events == old(events) + [Pkg(Downloading, Gtkhtml2)]
        && allowCancel && progress == 0
        && signalTimeout == old(nextSource) && sources == old(sources)[signalTimeout := InstallTimeoutCb]
        && nextSource == old(nextSource) + 1
    {
      if |ids| > 0 && ids[0] == VipsDoc {
        if !hasSignature {
          events := events + [RepoSignatureRequired(ids[0], "updates", KeyId, Gpg)];
          events := events + [ErrorEvent(GpgFailure)];
          events := events + [Finished];
          return;
        }
        if !eulaValid {
          events := events + [EulaRequired(EulaId, ids[0], "CATS Inc.")];
          events := events + [ErrorEvent(NoLicenseAgreement)];
          events := events + [Finished];
          return;
        }
      }
      allowCancel := true;
      progress := 0;
      events := events + [Pkg(Downloading, Gtkhtml2)];
      signalTimeout := AddTimeout(InstallTimeoutCb);
    }

    /** What one install tick does: `InstallTick` gives its events, progress
        and answer; a continuing tick shows the new percentage, with the
        sub-percentage valid strictly between 30 and 50; cancelling is
        refused from 30 on; the status is install at 30 and 50; the
        update flags, the id cursor and the timers stay as they were. */
    twostate predicate InstallTicked(keep: bool)
      reads this`events, this`allowCancel, this`status, this`subPercentageValid, this`progress, this`percentage
      reads this`updated, this`packageCurrent, this`signalTimeout, this`nextSource, this`packageIds
    {
      && keep == InstallTick(old(progress)).keep
      && events == old(events) + InstallTick(old(progress)).events
      && progress == InstallTick(old(progress)).progress
      && (keep ==> percentage == progress && subPercentageValid == (30 < old(progress) < 50))
      && (!keep ==> percentage == old(percentage) && subPercentageValid == old(subPercentageValid))
      && allowCancel == (old(allowCancel) && old(progress) != 30)
      && status == (if old(progress) == 30 || old(progress) == 50 then Install else old(status))
      && updated == old(updated) && packageCurrent == old(packageCurrent)
      && signalTimeout == old(signalTimeout) && nextSource == old(nextSource)
    }

    /** `backend_install_timeout`: one tick of the install, as `InstallTick`
        describes it; cancelling is refused from 30 on and the sub-percentage
        is valid strictly between 30 and 50. */
    method InstallTimeout() returns (keep: bool)
      modifies this`events, this`allowCancel, this`status, this`subPercentageValid, this`progress, this`percentage
      ensures InstallTicked(keep)
    {
      if progress == 100 {
        events := events + [Finished];
        return false;
      }
      if progress == 30 {
        allowCancel := false;
        events := events + [Pkg(Installing, Gtkhtml2)];
        status := Install;
      }
      if progress == 50 {
        events := events + [Pkg(Installing, Gtkhtml2Devel)];
        events := events + [Pkg(Installing, Gtkhtml2Devel)];
        status := Install;
      }
      subPercentageValid := 30 < progress < 50;
      progress := progress + 1;
      percentage := progress;
      return true;
    }

    /** `backend_install_signature`: only the `vips-doc` key is accepted. */
    method InstallSignature(sigType: SigType, keyId: string, packageId: string)
      modifies this`status, this`hasSignature, this`events
      ensures status == Install
      ensures hasSignature == (old(hasSignature) || AcceptsSignature(sigType, keyId, packageId))
      ensures AcceptsSignature(sigType, keyId, packageId) ==> events == old(events) + [Finished]
      ensures !AcceptsSignature(sigType, keyId, packageId) ==> events == old(events) + [ErrorEvent(GpgFailure), Finished]
    {
      status := Install;
      if sigType == Gpg && packageId == VipsDoc && keyId == KeyId {
        hasSignature := true;
      } else {
        events := events + [ErrorEvent(GpgFailure)];
      }
      events := events + [Finished];
    }

    // -------------------------------------------------- refresh cache

    /** `backend_refresh_cache`: progress and the update flags are reset
        and the refresh timer starts. */
    method RefreshCache()
      requires Valid()
      modifies this`progress, this`updated, this`allowCancel, this`status, this`signalTimeout, this`sources, this`nextSource
      ensures Valid()
      ensures progress == 0 && updated == NoneUpdated && allowCancel && status == Status.RefreshCache
      ensures signalTimeout == old(nextSource) && sources == old(sources)[signalTimeout := RefreshTimeoutCb]
      ensures nextSource == old(nextSource) + 1
    {
      progress := 0;
      updated := NoneUpdated;
      allowCancel := true;
      status := Status.RefreshCache;
      signalTimeout := AddTimeout(RefreshTimeoutCb);
    }

    /** What one refresh tick does: `RefreshTick` gives its events, progress
        and answer; a continuing tick shows the new percentage; cancelling
        is refused from 80 on; nothing else changes. */
    twostate predicate RefreshTicked(keep: bool)
      reads this`events, this`allowCancel, this`status, this`subPercentageValid, this`progress, this`percentage
      reads this`updated, this`packageCurrent, this`signalTimeout, this`nextSource, this`packageIds
    {
      && keep == RefreshTick(old(progress)).keep
      && events == old(events) + RefreshTick(old(progress)).events
      && progress == RefreshTick(old(progress)).progress
      && percentage == (if keep then progress else old(percentage))
      && allowCancel == (old(allowCancel) && old(progress) != 80)
      && status == old(status) && subPercentageValid == old(subPercentageValid) && updated == old(updated)
      && packageCurrent == old(packageCurrent) && signalTimeout == old(signalTimeout) && nextSource == old(nextSource)
    }

    /** `backend_refresh_cache_timeout`: one tick, as `RefreshTick`
        describes it; cancelling is refused from 80 on. */
    method RefreshTimeout() returns (keep: bool)
      modifies this`events, this`allowCancel, this`progress, this`percentage
      ensures RefreshTicked(keep)
    {
      if progress == 100 {
        events := events + [Finished];
        return false;
      }
      if progress == 80 {
        allowCancel := false;
      }
      progress := progress + 10;
      percentage := progress;
      return true;
    }

    // ------------------------------------------------ update packages

    /** `backend_update_packages`: the download timer starts at the first id. */
    method UpdatePackages(ids: seq<string>)
      requires Valid()
      modifies this`packageIds, this`packageCurrent, this`percentage, this`status, this`signalTimeout, this`sources, this`nextSource
      ensures Valid()
      ensures packageIds == ids && packageCurrent == 0 && percentage == 0 && status == Download
      ensures signalTimeout == old(nextSource) && sources == old(sources)[signalTimeout := DownloadTimeoutCb]
      ensures nextSource == old(nextSource) + 1
    {
      packageIds := ids;
      packageCurrent := 0;
      percentage := 0;
      status := Download;
      signalTimeout := AddTimeout(DownloadTimeoutCb);
    }

    /** What one download tick does besides registering the update timer:
        the current id is reported as downloading; while ids remain the
        cursor advances; after the last one the cursor rewinds, the status
        is update at 50 percent and the fresh id of the update timer is
        `_signal_timeout`; nothing else changes. */
    twostate predicate DownloadTicked(keep: bool)
      reads this`events, this`allowCancel, this`status, this`subPercentageValid, this`progress, this`percentage
      reads this`updated, this`packageCurrent, this`signalTimeout, this`nextSource, this`packageIds
    {
      && events == old(events) + [PackageEvent(Downloading, IdAt(packageIds, old(packageCurrent)))]
      && (keep <==> !Done(packageIds, old(packageCurrent) + 1))
      && (keep ==>
            && packageCurrent == old(packageCurrent) + 1 && status == old(status) && percentage == old(percentage)
            && signalTimeout == old(signalTimeout) && nextSource == old(nextSource))
      && (!keep ==>
            && packageCurrent == 0 && status == Update && percentage == 50
            && signalTimeout == old(nextSource) && nextSource == old(nextSource) + 1)
      && allowCancel == old(allowCancel) && subPercentageValid == old(subPercentageValid)
      && progress == old(progress) && updated == old(updated)
    }

    /** `backend_update_packages_download_timeout`: reports the current id
        as downloading; after the last one it rewinds and hands over to the
        update timer. */
    method DownloadTimeout() returns (keep: bool)
      requires Valid()
      modifies this`events, this`packageCurrent, this`status, this`percentage, this`signalTimeout, this`sources, this`nextSource
      ensures Valid()
      ensures DownloadTicked(keep)
      ensures sources == if keep then old(sources) else old(sources)[old(nextSource) := UpdateTimeoutCb]
    {
      events := events + [PackageEvent(Downloading, IdAt(packageIds, packageCurrent))];
      packageCurrent := packageCurrent + 1;
      if packageCurrent + 1 > |packageIds| {
        packageCurrent := 0;
        status := Update;
        percentage := 50;
        signalTimeout := AddTimeout(UpdateTimeoutCb);
        return false;
      }
      return true;
    }

    /** What one update tick does: `UpdateStep` gives its events and flags;
        the cursor advances; after the last id the percentage is 100 and
        the timer id is forgotten; nothing else changes. */
    twostate predicate UpdateTicked(keep: bool)
      reads this`events, this`allowCancel, this`status, this`subPercentageValid, this`progress, this`percentage
      reads this`updated, this`packageCurrent, this`signalTimeout, this`nextSource, this`packageIds
    {
      && events == old(events) + UpdateStep(packageIds, old(packageCurrent), old(updated)).events
      && updated == UpdateStep(packageIds, old(packageCurrent), old(updated)).updated
      && packageCurrent == old(packageCurrent) + 1
      && (keep <==> !Done(packageIds, old(packageCurrent) + 1))
      && (keep ==> percentage == old(percentage) && signalTimeout == old(signalTimeout))
      && (!keep ==> percentage == 100 && signalTimeout == 0)
      && allowCancel == old(allowCancel) && status == old(status) && subPercentageValid == old(subPercentageValid)
      && progress == old(progress) && nextSource == old(nextSource)
    }

    /** The three checks of the update tick on the current id: a known id
        is reported as updating and its flag is set, as `UpdateStep` says
        (apart from the `finished` after the last id). */
    method UpdateCurrent()
      modifies this`events, this`updated
      ensures updated == UpdateStep(packageIds, packageCurrent, old(updated)).updated
      ensures events + (if Done(packageIds, packageCurrent + 1) then [Finished] else [])
        == old(events) + UpdateStep(packageIds, packageCurrent, old(updated)).events
    {
      UpdateIdsDistinct();
      var package := IdAt(packageIds, packageCurrent);
      if package == Some(Powertop) {
        events := events + [Pkg(Updating, Powertop)];
        updated := updated.(powertop := true);
      }
      if package == Some(Kernel) {
        events := events + [Pkg(Updating, Kernel)];
        updated := updated.(kernel := true);
      }
      if package == Some(Gtkhtml2) {
        events := events + [Pkg(Updating, Gtkhtml2)];
        updated := updated.(gtkhtml := true);
      }
    }

    /** `backend_update_packages_update_timeout`: one tick, as `UpdateStep`
        describes it; after the last id the percentage is 100 and the timer
        is forgotten. */
    method UpdateTimeout() returns (keep: bool)
      requires Valid()
      modifies this`events, this`updated, this`packageCurrent, this`percentage, this`signalTimeout
      ensures Valid()
      ensures UpdateTicked(keep)
    {
      UpdateCurrent();
      packageCurrent := packageCurrent + 1;
      if packageCurrent + 1 > |packageIds| {
        percentage := 100;
        events := events + [Finished];
        signalTimeout := 0;
        return false;
      }
      return true;
    }

    // -------------------------------------------------- update system

    /** `backend_update_system`: a restart is required and the system
        update timer starts. */
    method UpdateSystem()
      requires Valid()
      modifies this`status, this`allowCancel, this`progress, this`events, this`signalTimeout, this`sources, this`nextSource
      ensures Valid()
      ensures status == Download && allowCancel && progress == 0
      ensures events == old(events) + [RequireRestart]
      ensures signalTimeout == old(nextSource) && sources == old(sources)[signalTimeout := SystemTimeoutCb]
      ensures nextSource == old(nextSource) + 1
    {
      status := Download;
      allowCancel := true;
      progress := 0;
      events := events + [RequireRestart];
      signalTimeout := AddTimeout(SystemTimeoutCb);
    }

    /** What one update-system tick does: `SystemStep` gives its events,
        progress, flags and answer; a continuing tick shows the new
        percentage; installing powertop at 40 switches to the update status
        and refuses cancelling; nothing else changes. */
    twostate predicate SystemTicked(keep: bool)
      reads this`events, this`allowCancel, this`status, this`subPercentageValid, this`progress, this`percentage
      reads this`updated, this`packageCurrent, this`signalTimeout, this`nextSource, this`packageIds
    {
      && keep == SystemStep(old(progress), old(updated)).keep
      && events == old(events) + SystemStep(old(progress), old(updated)).events
      && progress == SystemStep(old(progress), old(updated)).progress
      && updated == SystemStep(old(progress), old(updated)).updated
      && percentage == (if keep then progress else old(percentage))
      && (old(progress) == 40 && !old(updated).powertop ==> status == Update && !allowCancel)
      && (!(old(progress) == 40 && !old(updated).powertop) ==> status == old(status) && allowCancel == old(allowCancel))
      && subPercentageValid == old(subPercentageValid) && packageCurrent == old(packageCurrent)
      && signalTimeout == old(signalTimeout) && nextSource == old(nextSource)
    }

    /** `backend_update_system_timeout`: one tick, as `SystemStep` describes
        it; installing powertop at 40 switches to the update status and
        refuses cancelling. */
    method SystemTimeout() returns (keep: bool)
      modifies this`events, this`status, this`allowCancel, this`updated, this`progress, this`percentage
      ensures SystemTicked(keep)
    {
      if progress == 100 {
        events := events + [Finished];
        return false;
      }
      if progress == 0 && !updated.powertop {
        events := events + [Pkg(Downloading, Powertop)];
      }
      if progress == 20 && !updated.kernel {
        events := events + [Pkg(Downloading, Kernel)];
      }
      if progress == 30 && !updated.gtkhtml {
        events := events + [Pkg(Blocked, Gtkhtml2)];
        updated := updated.(gtkhtml := false);
      }
      if progress == 40 && !updated.powertop {
        status := Update;
        allowCancel := false;
        events := events + [Pkg(Installing, Powertop)];
        updated := updated.(powertop := true);
      }
      if progress == 60 && !updated.kernel {
        events := events + [Pkg(Updating, Kernel)];
        updated := updated.(kernel := true);
      }
      if progress == 80 && !updated.kernel {
        events := events + [Pkg(Cleanup, Kernel)];
      }
      progress := progress + 10;
      percentage := progress;
      return true;
    }

    // ---------------------------------------------------- get updates

    /** `backend_get_updates`: offline it fails at once; online the update
        list is reported by a timer. */
    method GetUpdates(online: bool)
      requires Valid()
      modifies this`status, this`percentage, this`events, this`signalTimeout, this`sources, this`nextSource
      ensures Valid()
      ensures status == Query && percentage == PercentageInvalid
      ensures !online ==>
        && events == old(events) + [ErrorEvent(NoNetwork), Finished]
        && signalTimeout == old(signalTimeout) && sources == old(sources) && nextSource == old(nextSource)
      ensures online ==>
        && events == old(events)
        && signalTimeout == old(nextSource) && sources == old(sources)[signalTimeout := UpdatesTimeoutCb]
        && nextSource == old(nextSource) + 1
    {
      status := Query;
      percentage := PercentageInvalid;
      if !online {
        events := events + [ErrorEvent(NoNetwork)];
        events := events + [Finished];
        return;
      }
      signalTimeout := AddTimeout(UpdatesTimeoutCb);
    }

    /** What one run of the get-updates timeout does: the packages not yet
        updated, then `finished`; the timer id is forgotten and the source
        dropped; nothing else changes. */
    twostate predicate UpdatesTicked(keep: bool)
      reads this`events, this`allowCancel, this`status, this`subPercentageValid, this`progress, this`percentage
      reads this`updated, this`packageCurrent, this`signalTimeout, this`nextSource, this`packageIds
    {
      && !keep && signalTimeout == 0
      && events == old(events) + (UpdatesList(old(updated)) + [Finished])
      && allowCancel == old(allowCancel) && status == old(status) && subPercentageValid == old(subPercentageValid)
      && progress == old(progress) && percentage == old(percentage) && updated == old(updated)
      && packageCurrent == old(packageCurrent) && nextSource == old(nextSource)
    }

    /** `backend_get_updates_timeout`: the packages not yet updated, then
        `finished`; the timer is forgotten. */
    method UpdatesTimeout() returns (keep: bool)
      requires Valid()
      modifies this`events, this`signalTimeout
      ensures Valid()
      ensures UpdatesTicked(keep)
    {
      ghost var start := events;
      if !updated.powertop && !updated.kernel && !updated.gtkhtml {
        events := events + [Pkg(Blocked, Vino)];
      }
      if !updated.powertop {
        events := events + [Pkg(Normal, Powertop)];
      }
      if !updated.kernel {
        events := events + [Pkg(Security, Kernel)];
      }
      if !updated.gtkhtml {
        events := events + [Pkg(Security, Gtkhtml2)];
      }
      assert events == start + UpdatesList(updated);
      events := events + [Finished];
      signalTimeout := 0;
      return false;
    }

    // ----------------------------------------------------- repositories

    /** `backend_get_repo_list`. */
    method GetRepoList(filters: set<Filter>)
      modifies this`status, this`events
      ensures status == Query
      ensures events == old(events) + (RepoList(repos, filters) + [Finished])
    {
      status := Query;
      ghost var start := events;
      events := events + [RepoDetail("fedora", "Fedora - 9", repos.fedora)];
      if NotDevelopment !in filters {
        events := events + [RepoDetail("development", "Fedora - Development", repos.devel)];
      }
      events := events + [RepoDetail("livna-development", "Livna for Fedora Core 8 - i386 - Development Tree", repos.livna)];
      assert events == start + RepoList(repos, filters);
      events := events + [Finished];
    }

    /** `backend_repo_enable`: sets the flag of a known repository; an
        unknown id changes nothing. */
    method RepoEnable(rid: string, enabled: bool)
      modifies this`status, this`repos, this`events
      ensures status == Request
      ensures repos == Enable(old(repos), rid, enabled)
      ensures events == old(events) + [Finished]
    {
      status := Request;
      if rid == "local" {
        repos := repos.(local := enabled);
      } else if rid == "development" {
        repos := repos.(devel := enabled);
      } else if rid == "fedora" {
        repos := repos.(fedora := enabled);
      } else if rid == "livna-development" {
        repos := repos.(livna := enabled);
      }
      events := events + [Finished];
    }

    // ---------------------------------------------------------- resolve

    /** `backend_resolve`: one package per known name, in order, then `finished`. */
    method Resolve(names: seq<string>)
      modifies this`status, this`events
      ensures status == Query
      ensures events == old(events) + (ResolveEvents(names) + [Finished])
    {
      status := Query;
      var i := 0;
      while i < |names|
        invariant 0 <= i <= |names|
        invariant events == old(events) + ResolveEvents(names[..i])
        invariant status == Query
      {
        assert names[..i + 1][..i] == names[..i];
        var e := ResolveOne(names[i]);
        if e.Some? {
          events := events + [e.value];
        }
        i := i + 1;
      }
      assert names[..i] == names;
      events := events + [Finished];
    }

    // ------------------------------------------------------- main loop

    /** The callback `cb` runs once, with exactly that callback's effect;
        it answers whether its source stays. */
    method Dispatch(cb: Callback) returns (keep: bool)
      requires Valid()
      modifies this`events, this`allowCancel, this`status, this`subPercentageValid, this`progress, this`percentage
      modifies this`updated, this`packageCurrent, this`signalTimeout, this`sources, this`nextSource
      ensures Valid()
      ensures cb != DownloadTimeoutCb ==> sources == old(sources)
      ensures cb == CancelTimeoutCb ==> CancelTicked(keep)
      ensures cb == UpdatesTimeoutCb ==> UpdatesTicked(keep)
      ensures cb == InstallTimeoutCb ==> InstallTicked(keep)
      ensures cb == RefreshTimeoutCb ==> RefreshTicked(keep)
      ensures cb == SystemTimeoutCb ==> SystemTicked(keep)
      ensures cb == UpdateTimeoutCb ==> UpdateTicked(keep)
      ensures cb == DownloadTimeoutCb ==>
        && DownloadTicked(keep)
        && sources == if keep then old(sources) else old(sources)[old(nextSource) := UpdateTimeoutCb]
    {
      match cb {
        case CancelTimeoutCb => keep := CancelTimeout();
        case UpdatesTimeoutCb => keep := UpdatesTimeout();
        case InstallTimeoutCb => keep := InstallTimeout();
        case RefreshTimeoutCb => keep := RefreshTimeout();
        case DownloadTimeoutCb => keep := DownloadTimeout();
        case UpdateTimeoutCb => keep := UpdateTimeout();
        case SystemTimeoutCb => keep := SystemTimeout();
      }
    }

    /** The GLib main loop firing source `id`: its callback runs, with
        exactly that callback's effect, and a callback that returns false
        has its source removed. */
    method Fire(id: nat) returns (keep: bool)
      requires Valid() && id in sources
      modifies this`events, this`allowCancel, this`status, this`subPercentageValid, this`progress, this`percentage
      modifies this`updated, this`packageCurrent, this`signalTimeout, this`sources, this`nextSource
      ensures Valid()
      ensures keep <==> id in sources
      ensures old(sources)[id] != DownloadTimeoutCb ==>
        sources == if keep then old(sources) else old(sources) - {id}
      ensures old(sources)[id] == CancelTimeoutCb ==> CancelTicked(keep)
      ensures old(sources)[id] == UpdatesTimeoutCb ==> UpdatesTicked(keep)
      ensures old(sources)[id] == InstallTimeoutCb ==> InstallTicked(keep)
      ensures old(sources)[id] == RefreshTimeoutCb ==> RefreshTicked(keep)
      ensures old(sources)[id] == SystemTimeoutCb ==> SystemTicked(keep)
      ensures old(sources)[id] == UpdateTimeoutCb ==> UpdateTicked(keep)
      ensures old(sources)[id] == DownloadTimeoutCb ==>
        && DownloadTicked(keep)
        && sources == if keep then old(sources) else (old(sources) - {id})[old(nextSource) := UpdateTimeoutCb]
    {
      keep := Dispatch(sources[id]);
      if !keep {
        if old(sources)[id] == DownloadTimeoutCb {
          assert sources - {id} == (old(sources) - {id})[old(nextSource) := UpdateTimeoutCb];
        }
        sources := sources - {id};
      }
    }
  }

  /** Once the depends loop has got through its identifiers without a
      failure, the thread emits the shown part of the sorted, deduplicated
      vector and finishes. */
  lemma DependsCompleted(apt: Apt, ids: seq<string>, filters: set<Filter>, depends: bool, cancelAt: nat)
    requires |ids| > 0 && Parse(ids[0]).Some? && !apt.initFails
    requires LookupPrefix(apt, ids, Reached(|ids|, 0, cancelAt)).failure.None?
    ensures DependsRun(apt, ids, filters, depends, cancelAt)
      == Run(Emits(filters, Shown(DependsOutput(apt, ids, depends, cancelAt), Polls(|ids|, 0, cancelAt), cancelAt)) + [Finished],
             cancelAt < Polls(|ids|, 0, cancelAt) + |DependsOutput(apt, ids, depends, cancelAt)|)
  {
  }

  /** An owner name that yields candidate `c` adds exactly its `emit_package`. */
  lemma FileEmitNext(apt: Apt, packages: seq<string>, filters: set<Filter>, i: nat, c: Candidate)
    requires i < |packages| && FileHit(apt, packages[i]) == [c]
    ensures Emits(filters, FileHits(apt, packages, i + 1)) == Emits(filters, FileHits(apt, packages, i)) + [EmitPackage(filters, c)]
  {
    FileHitsNext(apt, packages, i);
    EmitsAppend(filters, FileHits(apt, packages, i), [c]);
    assert Emits(filters, [c]) == [EmitPackage(filters, c)];
  }

  /** The signature gate end to end: a fresh backend refuses `vips-doc`
      until its key is installed, then starts installing. */
  method InstallGateScenario() returns (es: seq<Event>, live: map<nat, Callback>)
    ensures es == [RepoSignatureRequired(VipsDoc, "updates", KeyId, Gpg), ErrorEvent(GpgFailure), Finished,
                   Finished,
                   Pkg(Downloading, Gtkhtml2)]
    ensures live == map[1 := InstallTimeoutCb]
  {
    var b := new AptBackend();
    b.InstallPackages([VipsDoc], true);
    b.InstallSignature(Gpg, KeyId, VipsDoc);
    b.InstallPackages([VipsDoc], true);
    es, live := b.events, b.sources;
  }

  /** A cache refresh cancelled after `ticks` ticks, before it finishes:
      the transaction ends with one cancellation error and `finished`, and
      no timer is left. */
  method CancelledRefreshScenario(ticks: nat) returns (es: seq<Event>, live: map<nat, Callback>)
    requires ticks <= 10
    ensures es == [ErrorEvent(TransactionCancelled), Finished]
    ensures live == map[]
  {
    var b := new AptBackend();
    b.RefreshCache();
    var i := 0;
    while i < ticks
      invariant 0 <= i <= ticks
      invariant b.Valid() && b.progress == 10 * i && b.events == []
      invariant b.signalTimeout == 1 && b.sources == map[1 := RefreshTimeoutCb] && b.nextSource == 2
    {
      var _ := b.RefreshTimeout();
      i := i + 1;
    }
    b.Cancel();
    var keep := b.Fire(2);
    es, live := b.events, b.sources;
  }
}
