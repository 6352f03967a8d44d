/**
 * What the backend reports to the PackageKit daemon, as one append-only
 * log of events, and the bookkeeping shared by the loops that poll the
 * `_cancel` flag.
 */
module Events {
  import opened Wrappers
  import opened PkEnums
  import opened AptCache

  datatype Event =
    | PackageEvent(info: Info, id: Option<string>)        // pk_backend_package; a NULL id is None
    | EmitPackage(filters: set<Filter>, c: Candidate)     // emit_package of a cache candidate
    | EmitDetails(pkg: nat)                               // emit_details of a cache package
    | EmitFiles(packageId: string)                        // emit_files of a package id
    | RepoDetail(rid: string, description: string, enabled: bool)
    | ErrorEvent(code: ErrorCode)                         // pk_backend_error_code
    | RepoSignatureRequired(packageId: string, repoName: string, keyId: string, sigType: SigType)
    | EulaRequired(eulaId: string, packageId: string, vendor: string)
    | RequireRestart                                      // PK_RESTART_ENUM_SYSTEM
    | Finished                                            // pk_backend_finished

  function Min(a: nat, b: nat): (r: nat)
    ensures r <= a && r <= b && (r == a || r == b)
  {
    if a <= b then a else b
  }

  /** Appending to the log is associative. */
  lemma AppendAssoc(a: seq<Event>, b: seq<Event>, c: seq<Event>)
    ensures (a + b) + c == a + (b + c)
  {
  }

  /** One `emit_package` per candidate, in order. */
  function Emits(filters: set<Filter>, cs: seq<Candidate>): (r: seq<Event>)
    ensures |r| == |cs|
    ensures forall i :: 0 <= i < |cs| ==> r[i] == EmitPackage(filters, cs[i])
    decreases |cs|
  {
    if cs == [] then [] else Emits(filters, cs[..|cs| - 1]) + [EmitPackage(filters, cs[|cs| - 1])]
  }

  lemma {:induction false} EmitsAppend(filters: set<Filter>, a: seq<Candidate>, b: seq<Candidate>)
    ensures Emits(filters, a + b) == Emits(filters, a) + Emits(filters, b)
  {
    var l, r := Emits(filters, a + b), Emits(filters, a) + Emits(filters, b);
    assert |l| == |r|;
    forall i | 0 <= i < |l| ensures l[i] == r[i] {
      if i < |a| {
        assert (a + b)[i] == a[i];
      } else {
        assert (a + b)[i] == b[i - |a|];
      }
    }
  }

  /*
   * A concurrent `backend_cancel` is modelled by the index `cancelAt` of the
   * `_cancel` poll before which it lands. A thread numbers its polls from 0:
   * one at the head of every collect iteration, then one at the head of
   * every emit iteration. A loop over `len` items that starts after `base`
   * polls stops at poll `cancelAt` if that poll is its own.
   */

  /** How many of `len` items a polling loop gets through when it starts after `base` polls. */
  function Reached(len: nat, base: nat, cancelAt: nat): (r: nat)
    ensures r <= len
    ensures r < len <==> base <= cancelAt < base + len
    ensures r < len ==> r == cancelAt - base
  {
    if cancelAt < base then len else Min(len, cancelAt - base)
  }

  /** How many polls such a loop makes: one more than it got through if it broke off. */
  function Polls(len: nat, base: nat, cancelAt: nat): (r: nat)
    ensures Reached(len, base, cancelAt) <= r <= len && r <= Reached(len, base, cancelAt) + 1
    ensures r > Reached(len, base, cancelAt) <==> Reached(len, base, cancelAt) < len
  {
    var k := Reached(len, base, cancelAt);
    if k < len then k + 1 else len
  }

  /** How many candidates the emit loop gets out when it starts after `base`
      polls; none once the flag is already set, which is when `cancelAt < base`. */
  function Emitted(len: nat, base: nat, cancelAt: nat): (r: nat)
    ensures r <= len
    ensures cancelAt < base ==> r == 0
    ensures base <= cancelAt ==> r == Reached(len, base, cancelAt)
  {
    if cancelAt < base then 0 else Reached(len, base, cancelAt)
  }

  /** `finished` occurs exactly once, as the last event. */
  predicate FinishedLast(es: seq<Event>)
  {
    |es| > 0 && es[|es| - 1] == Finished && forall i :: 0 <= i < |es| - 1 ==> es[i] != Finished
  }

  /** Events without `finished` put before a run that finishes once, last,
      keep it finishing once, last. */
  lemma FinishedLastAfter(es: seq<Event>, rest: seq<Event>)
    requires Finished !in es && FinishedLast(rest)
    ensures FinishedLast(es + rest)
  {
    var r := es + rest;
    forall i | 0 <= i < |r| - 1
      ensures r[i] != Finished
    {
      if i >= |es| {
        assert r[i] == rest[i - |es|];
      }
    }
  }

  /** A run of emitted packages closed by `finished` reports no error and
      finishes once, last. */
  lemma EmitsFinished(filters: set<Filter>, cs: seq<Candidate>)
    ensures var es := Emits(filters, cs) + [Finished];
      && FinishedLast(es)
      && (forall i :: 0 <= i < |es| ==> !es[i].ErrorEvent?)
      && (NoneEmitted(es) <==> cs == [])
  {
    var em := Emits(filters, cs);
    var es := em + [Finished];
    assert forall i :: 0 <= i < |em| ==> es[i] == em[i];
    if cs != [] {
      assert es[0].EmitPackage?;
    }
  }

  /** No `emit_package` event at all. */
  predicate NoneEmitted(es: seq<Event>)
  {
    forall i :: 0 <= i < |es| ==> !es[i].EmitPackage?
  }
}
