/**
 * The timer-driven demonstration actions as step functions: one call of a
 * timeout callback is one step. Each step says which events it reports,
 * the new counter and whether GLib keeps the timer (the callback's return
 * value); a run is a number of steps of one timer, which stops once the
 * callback has returned false.
 */
module Machines {
  import opened Wrappers
  import opened PkEnums
  import opened Events
  import opened Demo

  /** One call of a progress callback. */
  datatype Tick = Tick(events: seq<Event>, progress: nat, keep: bool)

  // ------------------------------------------------------------- install

  /** `backend_install_timeout` at progress `p`. */
  function InstallTick(p: nat): (t: Tick)
    ensures t.keep <==> p != 100
    ensures t.keep ==> t.progress == p + 1
    ensures !t.keep ==> t.progress == p && t.events == [Finished]
    ensures Finished in t.events ==> !t.keep
  {
    if p == 100 then Tick([Finished], p, false)
    else
      Tick((if p == 30 then [Pkg(Installing, Gtkhtml2)] else [])
           + (if p == 50 then [Pkg(Installing, Gtkhtml2Devel), Pkg(Installing, Gtkhtml2Devel)] else []),
           p + 1, true)
  }

  /** The events of `k` install ticks starting at progress `p`. */
  function InstallRun(p: nat, k: nat): seq<Event>
    decreases k
  {
    if k == 0 then []
    else
      var t := InstallTick(p);
      t.events + (if t.keep then InstallRun(t.progress, k - 1) else [])
  }

  /** The progress after `k` install ticks starting at `p`. */
  function InstallAfter(p: nat, k: nat): nat
    decreases k
  {
    if k == 0 then p
    else
      var t := InstallTick(p);
      if t.keep then InstallAfter(t.progress, k - 1) else t.progress
  }

  /** From any start at or below 100 the progress climbs by one per tick and
      stops at exactly 100: never above, never backwards. */
  lemma {:induction false} InstallProgress(p: nat, k: nat)
    requires p <= 100
    ensures InstallAfter(p, k) == Min(p + k, 100)
    decreases k
  {
    if k > 0 && p < 100 {
      InstallProgress(p + 1, k - 1);
    }
  }

  /** The package events still ahead at progress `p`, then `finished`. */
  function InstallRest(p: nat): seq<Event>
  {
    (if p <= 30 then [Pkg(Installing, Gtkhtml2)] else [])
    + ((if p <= 50 then [Pkg(Installing, Gtkhtml2Devel), Pkg(Installing, Gtkhtml2Devel)] else [])
    + [Finished])
  }

  /** Enough ticks from progress `p` report the remaining install events and
      `finished` exactly once, last. */
  lemma {:induction false} InstallRunComplete(p: nat, k: nat)
    requires p <= 100 && k >= 101 - p
    ensures InstallRun(p, k) == InstallRest(p)
    ensures FinishedLast(InstallRun(p, k))
    decreases 100 - p
  {
    if p < 100 {
      InstallRunComplete(p + 1, k - 1);
      assert InstallRun(p, k) == InstallTick(p).events + InstallRun(p + 1, k - 1);
      InstallRestStep(p);
    }
    InstallRestFinishes(p);
  }

  lemma InstallRestStep(p: nat)
    requires p < 100
    ensures InstallTick(p).events + InstallRest(p + 1) == InstallRest(p)
  {
    if p == 30 || p == 50 {
      assert InstallTick(p).events + InstallRest(p + 1) == InstallRest(p);
    } else {
      assert InstallTick(p).events == [];
    }
  }

  lemma InstallRestFinishes(p: nat)
    ensures FinishedLast(InstallRest(p))
  {
    var r := InstallRest(p);
    assert r[|r| - 1] == Finished;
    assert forall i :: 0 <= i < |r| - 1 ==> r[i].PackageEvent?;
  }

  // --------------------------------------------------------- refresh cache

  /** `backend_refresh_cache_timeout` at progress `p`. */
  function RefreshTick(p: nat): (t: Tick)
    ensures t.keep <==> Finished !in t.events
    ensures forall e :: e in t.events ==> e == Finished
    ensures t.progress >= p && t.progress % 10 == p % 10
  {
    if p == 100 then Tick([Finished], p, false) else Tick([], p + 10, true)
  }

  function RefreshRun(p: nat, k: nat): seq<Event>
    decreases k
  {
    if k == 0 then []
    else
      var t := RefreshTick(p);
      t.events + (if t.keep then RefreshRun(t.progress, k - 1) else [])
  }

  function RefreshAfter(p: nat, k: nat): nat
    decreases k
  {
    if k == 0 then p
    else
      var t := RefreshTick(p);
      if t.keep then RefreshAfter(t.progress, k - 1) else t.progress
  }

  /** From a multiple of ten at or below 100 the progress climbs by ten per
      tick and stops at exactly 100. */
  lemma {:induction false} RefreshProgress(p: nat, k: nat)
    requires p <= 100 && p % 10 == 0
    ensures RefreshAfter(p, k) == Min(p + 10 * k, 100)
    decreases k
  {
    if k > 0 && p < 100 {
      RefreshProgress(p + 10, k - 1);
    }
  }

  /** Started at 0 (as `backend_refresh_cache` does), eleven ticks report
      `finished` once and nothing else. */
  lemma {:induction false} RefreshRunComplete(p: nat, k: nat)
    requires p <= 100 && p % 10 == 0 && 10 * k >= 110 - p
    ensures RefreshRun(p, k) == [Finished]
    decreases 100 - p
  {
    if p < 100 {
      RefreshRunComplete(p + 10, k - 1);
    }
  }

  /** From a progress that is not a multiple of ten the percentage steps
      past 100 and the timer never finishes. */
  lemma {:induction false} RefreshNeverFinishes(p: nat, k: nat)
    requires p % 10 != 0
    ensures Finished !in RefreshRun(p, k)
    decreases k
  {
    if k > 0 {
      assert RefreshRun(p, k) == RefreshRun(p + 10, k - 1);
      assert (p + 10) % 10 == p % 10;
      RefreshNeverFinishes(p + 10, k - 1);
    }
  }

  // --------------------------------------------------------- update system

  /** One call of `backend_update_system_timeout`, which also updates the flags. */
  datatype SystemTick = SystemTick(events: seq<Event>, progress: nat, updated: Updated, keep: bool)

  /** The flags after a system tick at `p`: powertop is updated at 40 and
      the kernel at 60 (each assignment in the source is guarded by the flag
      being unset, and the one at 30 re-clears a clear flag). */
  function SystemUpdated(p: nat, u: Updated): (u': Updated)
    ensures (u.powertop ==> u'.powertop) && (u.kernel ==> u'.kernel) && u'.gtkhtml == u.gtkhtml
    ensures p != 40 && p != 60 ==> u' == u
  {
    Updated(u.gtkhtml, u.kernel || p == 60, u.powertop || p == 40)
  }

  /** The package event of a system tick at `p` that does not finish. */
  function SystemEvents(p: nat, u: Updated): (es: seq<Event>)
    ensures |es| <= 1
  {
    if p == 0 && !u.powertop then [Pkg(Downloading, Powertop)]
    else if p == 20 && !u.kernel then [Pkg(Downloading, Kernel)]
    else if p == 30 && !u.gtkhtml then [Pkg(Blocked, Gtkhtml2)]
    else if p == 40 && !u.powertop then [Pkg(Installing, Powertop)]
    else if p == 60 && !u.kernel then [Pkg(Updating, Kernel)]
    else if p == 80 && !u.kernel then [Pkg(Cleanup, Kernel)]
    else []
  }

  function SystemStep(p: nat, u: Updated): (t: SystemTick)
    ensures t.keep <==> Finished !in t.events
    ensures |t.events| <= 1
    ensures t.progress >= p && t.progress % 10 == p % 10
  {
    if p == 100 then SystemTick([Finished], p, u, false)
    else SystemTick(SystemEvents(p, u), p + 10, SystemUpdated(p, u), true)
  }

  function SystemRun(p: nat, u: Updated, k: nat): seq<Event>
    decreases k
  {
    if k == 0 then []
    else
      var t := SystemStep(p, u);
      t.events + (if t.keep then SystemRun(t.progress, t.updated, k - 1) else [])
  }

  function SystemAfter(p: nat, u: Updated, k: nat): Updated
    decreases k
  {
    if k == 0 then u
    else
      var t := SystemStep(p, u);
      if t.keep then SystemAfter(t.progress, t.updated, k - 1) else t.updated
  }

  /** The events an update-system timer still reports from progress `p`. */
  function SystemRest(p: nat, u: Updated): seq<Event>
  {
    (if p == 0 && !u.powertop then [Pkg(Downloading, Powertop)] else [])
    + ((if p <= 20 && !u.kernel then [Pkg(Downloading, Kernel)] else [])
    + ((if p <= 30 && !u.gtkhtml then [Pkg(Blocked, Gtkhtml2)] else [])
    + ((if p <= 40 && !u.powertop then [Pkg(Installing, Powertop)] else [])
    + ((if p <= 60 && !u.kernel then [Pkg(Updating, Kernel)] else [])
    + ((if 60 < p <= 80 && !u.kernel then [Pkg(Cleanup, Kernel)] else [])
    + [Finished])))))
  }

  /** A complete update-system run from a multiple of ten reports what is
      still ahead. In particular a run from 0 never reports the kernel's
      clean-up, because 60 updated it. */
  lemma {:induction false} SystemRunComplete(p: nat, u: Updated, k: nat)
    requires p <= 100 && p % 10 == 0 && 10 * k >= 110 - p
    ensures SystemRun(p, u, k) == SystemRest(p, u)
    decreases 100 - p
  {
    if p < 100 {
      SystemRunStep(p, u, k);
      SystemRunComplete(p + 10, SystemUpdated(p, u), k - 1);
      SystemRestStep(p, u);
    }
  }

  /** A tick below 100 reports its package event and hands on to the next. */
  lemma SystemRunStep(p: nat, u: Updated, k: nat)
    requires p < 100 && k > 0
    ensures SystemRun(p, u, k) == SystemEvents(p, u) + SystemRun(p + 10, SystemUpdated(p, u), k - 1)
  {
  }

  /** Hence it reports `finished` once, last. */
  lemma SystemRunFinishes(p: nat, u: Updated, k: nat)
    requires p <= 100 && p % 10 == 0 && 10 * k >= 110 - p
    ensures FinishedLast(SystemRun(p, u, k))
  {
    SystemRunComplete(p, u, k);
    SystemRestFinishes(p, u);
  }

  /** ... and leaves powertop and the kernel updated if it passed 40 and 60. */
  lemma {:induction false} SystemAfterComplete(p: nat, u: Updated, k: nat)
    requires p <= 100 && p % 10 == 0 && 10 * k >= 110 - p
    ensures SystemAfter(p, u, k) == Updated(u.gtkhtml, u.kernel || p <= 60, u.powertop || p <= 40)
    decreases 100 - p
  {
    if p < 100 {
      SystemAfterComplete(p + 10, SystemUpdated(p, u), k - 1);
    }
  }

  /** One tick from a multiple of ten below 100 reports its events, then
      the rest from ten further on with the flags that tick set. Each tick
      is its own lemma below, so that Dafny evaluates it at a literal
      progress rather than over all ten at once. */
  lemma SystemRestStep(p: nat, u: Updated)
    requires p < 100 && p % 10 == 0
    ensures SystemEvents(p, u) + SystemRest(p + 10, SystemUpdated(p, u)) == SystemRest(p, u)
  {
    if p == 0 {
      SystemRestStepAt0(u);
    } else if p == 10 {
      SystemRestStepAt10(u);
    } else if p == 20 {
      SystemRestStepAt20(u);
    } else if p == 30 {
      SystemRestStepAt30(u);
    } else if p == 40 {
      SystemRestStepAt40(u);
    } else if p == 50 {
      SystemRestStepAt50(u);
    } else if p == 60 {
      SystemRestStepAt60(u);
    } else if p == 70 {
      SystemRestStepAt70(u);
    } else if p == 80 {
      SystemRestStepAt80(u);
    } else if p == 90 {
      SystemRestStepAt90(u);
    }
  }

  lemma SystemRestStepAt0(u: Updated)
    ensures SystemEvents(0, u) + SystemRest(10, SystemUpdated(0, u)) == SystemRest(0, u)
  {
  }

  lemma SystemRestStepAt10(u: Updated)
    ensures SystemEvents(10, u) + SystemRest(20, SystemUpdated(10, u)) == SystemRest(10, u)
  {
  }

  lemma SystemRestStepAt20(u: Updated)
    ensures SystemEvents(20, u) + SystemRest(30, SystemUpdated(20, u)) == SystemRest(20, u)
  {
  }

  lemma SystemRestStepAt30(u: Updated)
    ensures SystemEvents(30, u) + SystemRest(40, SystemUpdated(30, u)) == SystemRest(30, u)
  {
  }

  lemma SystemRestStepAt40(u: Updated)
    ensures SystemEvents(40, u) + SystemRest(50, SystemUpdated(40, u)) == SystemRest(40, u)
  {
  }

  lemma SystemRestStepAt50(u: Updated)
    ensures SystemEvents(50, u) + SystemRest(60, SystemUpdated(50, u)) == SystemRest(50, u)
  {
  }

  lemma SystemRestStepAt60(u: Updated)
    ensures SystemEvents(60, u) + SystemRest(70, SystemUpdated(60, u)) == SystemRest(60, u)
  {
  }

  lemma SystemRestStepAt70(u: Updated)
    ensures SystemEvents(70, u) + SystemRest(80, SystemUpdated(70, u)) == SystemRest(70, u)
  {
  }

  lemma SystemRestStepAt80(u: Updated)
    ensures SystemEvents(80, u) + SystemRest(90, SystemUpdated(80, u)) == SystemRest(80, u)
  {
  }

  lemma SystemRestStepAt90(u: Updated)
    ensures SystemEvents(90, u) + SystemRest(100, SystemUpdated(90, u)) == SystemRest(90, u)
  {
  }

  lemma SystemRestFinishes(p: nat, u: Updated)
    ensures FinishedLast(SystemRest(p, u))
  {
    var r := SystemRest(p, u);
    assert r[|r| - 1] == Finished;
    assert forall i :: 0 <= i < |r| - 1 ==> r[i].PackageEvent?;
  }

  // ------------------------------------------------------- update packages

  /** `_package_ids[i]`, where the NULL terminator at `i == |ids|` is None. */
  function IdAt(ids: seq<string>, i: nat): Option<string>
  {
    if i < |ids| then Some(ids[i]) else None
  }

  /** Whether a download or update callback has reached the end of the ids
      after moving `_package_current` to `next`. */
  predicate Done(ids: seq<string>, next: nat)
  {
    next + 1 > |ids|
  }

  /** The events of `k` download ticks from `_package_current == cur`. */
  function DownloadRun(ids: seq<string>, cur: nat, k: nat): seq<Event>
    decreases k
  {
    if k == 0 then []
    else [PackageEvent(Downloading, IdAt(ids, cur))] + (if Done(ids, cur + 1) then [] else DownloadRun(ids, cur + 1, k - 1))
  }

  /** One "downloading" event per id, in order. */
  function DownloadEvents(ids: seq<string>): (r: seq<Event>)
    ensures |r| == |ids|
    ensures forall i :: 0 <= i < |ids| ==> r[i] == Pkg(Info.Downloading, ids[i])
  {
    seq(|ids|, i requires 0 <= i < |ids| => Pkg(Info.Downloading, ids[i]))
  }

  /** The download phase reports each remaining id once, in order, and hands
      over after the last; an empty id list still reports one NULL id. */
  lemma {:induction false} DownloadRunComplete(ids: seq<string>, cur: nat, k: nat)
    requires cur < |ids| && k >= |ids| - cur
    ensures DownloadRun(ids, cur, k) == DownloadEvents(ids[cur..])
    decreases |ids| - cur
  {
    var rest := ids[cur..];
    assert rest == [ids[cur]] + ids[cur + 1..];
    DownloadEventsCons(rest);
    if !Done(ids, cur + 1) {
      DownloadRunComplete(ids, cur + 1, k - 1);
    } else {
      assert ids[cur + 1..] == [];
    }
  }

  lemma DownloadEventsCons(ids: seq<string>)
    requires |ids| > 0
    ensures DownloadEvents(ids) == [Pkg(Info.Downloading, ids[0])] + DownloadEvents(ids[1..])
  {
    var l, r := DownloadEvents(ids), [Pkg(Info.Downloading, ids[0])] + DownloadEvents(ids[1..]);
    assert |l| == |r|;
    forall i | 0 <= i < |l| ensures l[i] == r[i] {
      if i > 0 {
        assert r[i] == DownloadEvents(ids[1..])[i - 1];
      }
    }
  }

  lemma DownloadRunEmpty(k: nat)
    requires k >= 1
    ensures DownloadRun([], 0, k) == [PackageEvent(Downloading, None)]
  {
  }

  /** The update flags and events of one `backend_update_packages_update_timeout`. */
  datatype UpdateTick = UpdateTick(events: seq<Event>, updated: Updated)

  function UpdateStep(ids: seq<string>, cur: nat, u: Updated): (t: UpdateTick)
    ensures t.updated.powertop == (u.powertop || IdAt(ids, cur) == Some(Powertop))
    ensures t.updated.kernel == (u.kernel || IdAt(ids, cur) == Some(Kernel))
    ensures t.updated.gtkhtml == (u.gtkhtml || IdAt(ids, cur) == Some(Gtkhtml2))
    ensures Finished in t.events <==> Done(ids, cur + 1)
  {
    var pkg := IdAt(ids, cur);
    var es := if pkg == Some(Powertop) then [Pkg(Updating, Powertop)]
      else if pkg == Some(Kernel) then [Pkg(Updating, Kernel)]
      else if pkg == Some(Gtkhtml2) then [Pkg(Updating, Gtkhtml2)]
      else [];
    var u' := Updated(u.gtkhtml || pkg == Some(Gtkhtml2), u.kernel || pkg == Some(Kernel), u.powertop || pkg == Some(Powertop));
    UpdateTick(es + (if Done(ids, cur + 1) then [Finished] else []), u')
  }

  function UpdateRun(ids: seq<string>, cur: nat, u: Updated, k: nat): seq<Event>
    decreases k
  {
    if k == 0 then []
    else
      var t := UpdateStep(ids, cur, u);
      t.events + (if Done(ids, cur + 1) then [] else UpdateRun(ids, cur + 1, t.updated, k - 1))
  }

  function UpdateAfter(ids: seq<string>, cur: nat, u: Updated, k: nat): Updated
    decreases k
  {
    if k == 0 then u
    else
      var t := UpdateStep(ids, cur, u);
      if Done(ids, cur + 1) then t.updated else UpdateAfter(ids, cur + 1, t.updated, k - 1)
  }

  /** A complete update phase reports `finished` once, last. */
  lemma {:induction false} UpdateRunComplete(ids: seq<string>, cur: nat, u: Updated, k: nat)
    requires cur <= |ids| && k >= |ids| - cur && k >= 1
    ensures FinishedLast(UpdateRun(ids, cur, u, k))
    decreases |ids| - cur
  {
    var t := UpdateStep(ids, cur, u);
    if !Done(ids, cur + 1) {
      var rest := UpdateRun(ids, cur + 1, t.updated, k - 1);
      UpdateRunComplete(ids, cur + 1, t.updated, k - 1);
      assert UpdateRun(ids, cur, u, k) == t.events + rest;
      FinishedLastAfter(t.events, rest);
    }
  }

  /** ... and marks exactly the known ids it met as updated. */
  lemma {:induction false} UpdateAfterComplete(ids: seq<string>, cur: nat, u: Updated, k: nat)
    requires cur <= |ids| && k >= |ids| - cur && k >= 1
    ensures UpdateAfter(ids, cur, u, k) == Updated(u.gtkhtml || Gtkhtml2 in ids[cur..],
                                                   u.kernel || Kernel in ids[cur..],
                                                   u.powertop || Powertop in ids[cur..])
    decreases |ids| - cur
  {
    var t := UpdateStep(ids, cur, u);
    if Done(ids, cur + 1) {
      assert ids[cur..] == (if cur < |ids| then [ids[cur]] else []);
    } else {
      UpdateAfterComplete(ids, cur + 1, t.updated, k - 1);
      assert ids[cur..] == [ids[cur]] + ids[cur + 1..];
    }
  }

  /** Once update-packages has updated powertop, the kernel or gtkhtml2, the
      next update list no longer offers it. */
  lemma UpdatedNotListed(ids: seq<string>, u: Updated, k: nat)
    requires k >= |ids| && k >= 1
    ensures var u' := UpdateAfter(ids, 0, u, k);
      && (Powertop in ids ==> Pkg(Normal, Powertop) !in UpdatesList(u'))
      && (Kernel in ids ==> Pkg(Security, Kernel) !in UpdatesList(u'))
      && (Gtkhtml2 in ids ==> Pkg(Security, Gtkhtml2) !in UpdatesList(u'))
  {
    UpdateAfterComplete(ids, 0, u, k);
    assert ids[0..] == ids;
    UpdatesListSpec(UpdateAfter(ids, 0, u, k));
  }
}
