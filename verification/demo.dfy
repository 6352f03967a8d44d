/**
 * The fixed demonstration data some handlers answer with instead of asking
 * the cache: resolved names, the repository list, the update list and the
 * signature and licence gate of the install action.
 */
module Demo {
  import opened Wrappers
  import opened PkEnums
  import opened Events

  const VipsDoc: string := "vips-doc" + ";7.12.4-2.fc8;noarch;linva"
  const Glib2: string := "glib2" + ";2.14.0;i386;fedora"
  const Powertop: string := "powertop" + ";1.8-1.fc8;i386;fedora"
  const Kernel: string := "kernel" + ";2.6.23-0.115.rc3.git1.fc8;i386;installed"
  const Gtkhtml2: string := "gtkhtml2" + ";2.19.1-4.fc8;i386;fedora"
  const Gtkhtml2Devel: string := "gtkhtml2-devel" + ";2.19.1-0.fc8;i386;fedora"
  const Vino: string := "vino" + ";2.24.2.fc9;i386;fedora"
  const KeyId: string := "BB7576AC"
  const EulaId: string := "eula_hughsie_dot_com"

  /** The three packages the update actions know are told apart by their first letter. */
  lemma UpdateIdsDistinct()
    ensures Powertop != Kernel && Powertop != Gtkhtml2 && Kernel != Gtkhtml2
  {
    assert Powertop[0] == 'p' && Kernel[0] == 'k' && Gtkhtml2[0] == 'g';
  }

  /** A `pk_backend_package` event with a (non-NULL) package id. */
  function Pkg(info: Info, id: string): Event
  {
    PackageEvent(info, Some(id))
  }

  // ---------------------------------------------------------------- resolve

  /** The package event one resolved name yields, if it is one of the five known names. */
  function ResolveOne(name: string): (r: Option<Event>)
    ensures r.Some? <==> name in ["vips-doc", "glib2", "powertop", "kernel", "gtkhtml2"]
    ensures r.Some? ==> r.value.PackageEvent? && r.value.id.Some? && Names(r.value.id.value, name)
  {
    if name == "vips-doc" then Some(Pkg(Available, VipsDoc))
    else if name == "glib2" then Some(Pkg(Info.Installed, Glib2))
    else if name == "powertop" then Some(Pkg(Updating, Powertop))
    else if name == "kernel" then Some(Pkg(Updating, Kernel))
    else if name == "gtkhtml2" then Some(Pkg(Updating, Gtkhtml2))
    else None
  }

  /** The package id `id` starts with the name field `name`. */
  predicate Names(id: string, name: string)
  {
    |name| < |id| && id[..|name|] == name && id[|name|] == ';'
  }

  /** The package events resolving `names` yields, in order. */
  function ResolveEvents(names: seq<string>): seq<Event>
    decreases |names|
  {
    if names == [] then []
    else
      var last := ResolveOne(names[|names| - 1]);
      ResolveEvents(names[..|names| - 1]) + (if last.Some? then [last.value] else [])
  }

  /** Resolving yields at most one event per name, only for known names, and
      each event's id names the package asked for. */
  lemma {:induction false} ResolveEventsSpec(names: seq<string>)
    ensures |ResolveEvents(names)| <= |names|
    ensures forall e :: e in ResolveEvents(names) ==>
      e.PackageEvent? && e.id.Some? && exists n :: n in names && Names(e.id.value, n)
    ensures (forall n :: n in names ==> ResolveOne(n).None?) ==> ResolveEvents(names) == []
    decreases |names|
  {
    if names != [] {
      var init := names[..|names| - 1];
      ResolveEventsSpec(init);
      forall e | e in ResolveEvents(names)
        ensures e.PackageEvent? && e.id.Some? && exists n :: n in names && Names(e.id.value, n)
      {
        if e in ResolveEvents(init) {
          assert forall n :: n in init ==> n in names;
        }
      }
      if forall n :: n in names ==> ResolveOne(n).None? {
        assert forall n :: n in init ==> n in names;
        assert ResolveOne(names[|names| - 1]).None?;
      }
    }
  }

  // ---------------------------------------------------------- repositories

  /** `_repo_enabled_local`, `_fedora`, `_devel` and `_livna`. */
  datatype RepoFlags = RepoFlags(local: bool, fedora: bool, devel: bool, livna: bool)

  const InitialRepos: RepoFlags := RepoFlags(false, true, true, true)

  /** The flags after `backend_repo_enable(rid, enabled)`. */
  function Enable(r: RepoFlags, rid: string, enabled: bool): (r': RepoFlags)
    ensures r'.local == (if rid == "local" then enabled else r.local)
    ensures r'.devel == (if rid == "development" then enabled else r.devel)
    ensures r'.fedora == (if rid == "fedora" then enabled else r.fedora)
    ensures r'.livna == (if rid == "livna-development" then enabled else r.livna)
  {
    if rid == "local" then r.(local := enabled)
    else if rid == "development" then r.(devel := enabled)
    else if rid == "fedora" then r.(fedora := enabled)
    else if rid == "livna-development" then r.(livna := enabled)
    else r
  }

  /** The repository details `backend_get_repo_list` reports. */
  function RepoList(r: RepoFlags, filters: set<Filter>): (es: seq<Event>)
    ensures RepoDetail("fedora", "Fedora - 9", r.fedora) in es
    ensures RepoDetail("livna-development", "Livna for Fedora Core 8 - i386 - Development Tree", r.livna) in es
    ensures (exists e :: e in es && e.RepoDetail? && e.rid == "development") <==> NotDevelopment !in filters
    ensures forall e :: e in es ==> e.RepoDetail? && e.rid != "local"
  {
    [RepoDetail("fedora", "Fedora - 9", r.fedora)]
    + (if NotDevelopment !in filters then [RepoDetail("development", "Fedora - Development", r.devel)] else [])
    + [RepoDetail("livna-development", "Livna for Fedora Core 8 - i386 - Development Tree", r.livna)]
  }

  /** Enabling or disabling a listed repository shows in the next listing,
      and every other reported flag is unchanged. */
  lemma EnableThenList(r: RepoFlags, rid: string, enabled: bool, filters: set<Filter>, e: Event)
    requires e in RepoList(Enable(r, rid, enabled), filters)
    ensures e.rid == rid ==> e.enabled == enabled
    ensures e.rid != rid ==> e in RepoList(r, filters)
  {
  }

  /** An unknown repository id leaves every flag as it was. */
  lemma EnableUnknown(r: RepoFlags, rid: string, enabled: bool)
    requires rid !in ["local", "development", "fedora", "livna-development"]
    ensures Enable(r, rid, enabled) == r
  {
  }

  // ------------------------------------------------------------- updates

  /** `_updated_gtkhtml`, `_updated_kernel` and `_updated_powertop`. */
  datatype Updated = Updated(gtkhtml: bool, kernel: bool, powertop: bool)

  const NoneUpdated: Updated := Updated(false, false, false)

  /** The update list `backend_get_updates_timeout` reports. */
  function UpdatesList(u: Updated): seq<Event>
  {
    (if !u.powertop && !u.kernel && !u.gtkhtml then [Pkg(Blocked, Vino)] else [])
    + (if !u.powertop then [Pkg(Normal, Powertop)] else [])
    + (if !u.kernel then [Pkg(Security, Kernel)] else [])
    + (if !u.gtkhtml then [Pkg(Security, Gtkhtml2)] else [])
  }

  /** Each package not yet updated is listed, `vino` only while none is,
      and nothing else. */
  lemma UpdatesListSpec(u: Updated)
    ensures Pkg(Blocked, Vino) in UpdatesList(u) <==> u == NoneUpdated
    ensures Pkg(Normal, Powertop) in UpdatesList(u) <==> !u.powertop
    ensures Pkg(Security, Kernel) in UpdatesList(u) <==> !u.kernel
    ensures Pkg(Security, Gtkhtml2) in UpdatesList(u) <==> !u.gtkhtml
    ensures |UpdatesList(u)| <= 4
  {
  }

  // ------------------------------------------------ install signature gate

  /** The events with which `backend_install_packages` refuses, if it does:
      only `vips-doc` is gated, first on the signature, then on the licence. */
  function InstallRefusal(ids: seq<string>, hasSignature: bool, eulaValid: bool): (r: Option<seq<Event>>)
    ensures r.Some? <==> |ids| > 0 && ids[0] == VipsDoc && !(hasSignature && eulaValid)
    ensures r.Some? && !hasSignature ==>
      r.value == [RepoSignatureRequired(VipsDoc, "updates", KeyId, Gpg), ErrorEvent(GpgFailure), Finished]
    ensures r.Some? && hasSignature ==>
      r.value == [EulaRequired(EulaId, VipsDoc, "CATS Inc."), ErrorEvent(NoLicenseAgreement), Finished]
  {
    if |ids| == 0 || ids[0] != VipsDoc then None
    else if !hasSignature then
      Some([RepoSignatureRequired(ids[0], "updates", KeyId, Gpg), ErrorEvent(GpgFailure), Finished])
    else if !eulaValid then
      Some([EulaRequired(EulaId, ids[0], "CATS Inc."), ErrorEvent(NoLicenseAgreement), Finished])
    else None
  }

  /** The only signature `backend_install_signature` accepts. */
  predicate AcceptsSignature(sigType: SigType, keyId: string, packageId: string)
  {
    sigType == Gpg && packageId == VipsDoc && keyId == KeyId
  }

  /** The gate opens for `vips-doc` only once the accepted signature is
      installed and the licence is valid; any other first id passes. */
  lemma InstallGateOpens(ids: seq<string>, hasSignature: bool, eulaValid: bool)
    ensures InstallRefusal(ids, hasSignature, eulaValid).None? <==>
      (|ids| == 0 || ids[0] != VipsDoc || (hasSignature && eulaValid))
    ensures InstallRefusal(ids, hasSignature, eulaValid).Some? ==>
      FinishedLast(InstallRefusal(ids, hasSignature, eulaValid).value)
  {
  }
}
