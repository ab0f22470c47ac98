// The watchdog that follows each Amino and Flexer job. After the throttle, the
// job's page is checked once: depending on the source, the job is either
// dropped or sent to the registry. A sent job gets a goroutine that re-checks
// the page every hour and removes the job after the first re-check that
// succeeds and says "not valid". The hour-long sleeps are not modelled: the
// re-checks are the sequence of their results.

module Watchdog {
  import opened Jobs
  import opened Validity
  import opened Registry

  /** The re-check loop's break condition: no error, and not valid. */
  predicate Invalidates(c: Check) {
    !c.failed && !c.ok
  }

  /** Amino drops the job unless the first check succeeds and says valid. */
  predicate AminoAdmits(first: Check) {
    !(first.failed || !first.ok)
  }

  /** Flexer drops the job only when the first check succeeds and says not valid. */
  predicate FlexerAdmits(first: Check) {
    !(!first.failed && !first.ok)
  }

  /** The index of the first re-check that ends the loop, if any. */
  function FirstInvalidating(checks: seq<Check>): (r: Option<nat>)
    ensures r.Some? ==> (r.value < |checks| && Invalidates(checks[r.value])
      && forall k :: 0 <= k < r.value ==> !Invalidates(checks[k]))
    ensures r.None? ==> forall k :: 0 <= k < |checks| ==> !Invalidates(checks[k])
  {
    if checks == [] then None
    else if Invalidates(checks[0]) then Some(0)
    else
      match FirstInvalidating(checks[1..])
      case None => None
      case Some(i) => Some(i + 1)
  }

  /**
   * The re-check loop over the results it sees: it stops at the first result
   * that invalidates the job and says which one, or runs through all of them.
   */
  method Recheck(checks: seq<Check>) returns (stop: Option<nat>)
    ensures stop == FirstInvalidating(checks)
  {
    var i := 0;
    while i < |checks|
      invariant 0 <= i <= |checks|
      invariant forall k :: 0 <= k < i ==> !Invalidates(checks[k])
    {
      if Invalidates(checks[i]) {
        FirstInvalidatingIs(checks, i);
        return Some(i);
      }
      i := i + 1;
    }
    FirstInvalidatingIs(checks, |checks|);
    return None;
  }

  /** FirstInvalidating is determined by the first invalidating index, or its absence. */
  lemma FirstInvalidatingIs(checks: seq<Check>, i: nat)
    requires i <= |checks|
    requires forall k :: 0 <= k < i ==> !Invalidates(checks[k])
    requires i < |checks| ==> Invalidates(checks[i])
    ensures FirstInvalidating(checks) == if i < |checks| then Some(i) else None
  {
  }

  /**
   * Re-checks after the one that ended the loop are never made: the outcome
   * is the same whatever results would have followed.
   */
  lemma LaterChecksIgnored(checks: seq<Check>, more: seq<Check>)
    requires FirstInvalidating(checks).Some?
    ensures FirstInvalidating(checks + more) == FirstInvalidating(checks)
  {
    var i := FirstInvalidating(checks).value;
    var all := checks + more;
    assert forall k :: 0 <= k <= i ==> all[k] == checks[k];
    FirstInvalidatingIs(all, i);
  }

  /** Re-checks that fail with an error never remove a job. */
  lemma ErrorsNeverRemove(checks: seq<Check>)
    requires forall k :: 0 <= k < |checks| ==> checks[k].failed
    ensures FirstInvalidating(checks).None?
  {
    FirstInvalidatingIs(checks, |checks|);
  }

  /** What happens to a job: never sent, or sent and perhaps removed after re-check `i`. */
  datatype Outcome = Dropped | Listed(removedAfter: Option<nat>)

  /** Amino's watchdog: listed only after a first check that succeeds and says valid, then removed after the first invalidating re-check. */
  function AminoWatch(first: Check, rechecks: seq<Check>): (o: Outcome)
    ensures o.Listed? <==> (!first.failed && first.ok)
    ensures o.Listed? ==> o.removedAfter == FirstInvalidating(rechecks)
  {
    if AminoAdmits(first) then Listed(FirstInvalidating(rechecks)) else Dropped
  }

  /** Flexer's watchdog: dropped only after a first check that succeeds and says not valid, then like Amino's. */
  function FlexerWatch(first: Check, rechecks: seq<Check>): (o: Outcome)
    ensures o.Dropped? <==> (!first.failed && !first.ok)
    ensures o.Listed? ==> o.removedAfter == FirstInvalidating(rechecks)
  {
    if FlexerAdmits(first) then Listed(FirstInvalidating(rechecks)) else Dropped
  }

  /**
   * The two sources differ only on a first check that fails with an error:
   * Amino drops the job, Flexer lists it. A first check that succeeds is
   * treated alike: listed when valid, dropped when not.
   */
  lemma FirstCheckPolicies(first: Check, rechecks: seq<Check>)
    ensures first.failed ==> (AminoWatch(first, rechecks) == Dropped
      && FlexerWatch(first, rechecks) == Listed(FirstInvalidating(rechecks)))
    ensures !first.failed ==> AminoWatch(first, rechecks) == FlexerWatch(first, rechecks)
    ensures !first.failed ==> (AminoWatch(first, rechecks).Listed? <==> first.ok)
  {
  }

  /**
   * A job is removed only after a re-check that succeeded and said "not
   * valid", and every re-check before it kept the job.
   */
  lemma RemovedOnlyWhenInvalid(first: Check, rechecks: seq<Check>, flexer: bool)
    ensures var o := if flexer then FlexerWatch(first, rechecks) else AminoWatch(first, rechecks);
      o.Listed? && o.removedAfter.Some? ==>
        var i := o.removedAfter.value;
        i < |rechecks| && !rechecks[i].failed && !rechecks[i].ok
        && forall k :: 0 <= k < i ==> rechecks[k].failed || rechecks[k].ok
  {
  }

  /**
   * The whole life of one watched job when nothing else touches the registry
   * meanwhile: if admitted it is appended, and if a re-check invalidates it
   * removeJob takes out the first job with its link, which is the job itself
   * when no earlier entry shares its link.
   */
  method Watch(reg: JobRegistry, job: Job, first: Check, rechecks: seq<Check>, flexer: bool)
    returns (outcome: Outcome)
    modifies reg
    ensures outcome == if flexer then FlexerWatch(first, rechecks) else AminoWatch(first, rechecks)
    ensures outcome == Dropped ==> reg.jobs == old(reg.jobs)
    ensures outcome == Listed(None) ==> reg.jobs == old(reg.jobs) + [job]
    ensures outcome.Listed? && outcome.removedAfter.Some? ==>
      reg.jobs == RemoveFirst(old(reg.jobs) + [job], job.link)
    ensures (outcome.Listed? && outcome.removedAfter.Some?
      && forall k :: 0 <= k < |old(reg.jobs)| ==> old(reg.jobs)[k].link != job.link) ==>
      reg.jobs == old(reg.jobs)
  {
    var admitted := if flexer then FlexerAdmits(first) else AminoAdmits(first);
    if !admitted {
      return Dropped;
    }
    reg.Receive(job);
    var stop := Recheck(rechecks);
    if stop.Some? {
      RemoveAfterReceive(reg.jobs[..|reg.jobs| - 1], job);
      assert reg.jobs[..|reg.jobs| - 1] == old(reg.jobs);
      reg.RemoveJob(job);
    }
    outcome := Listed(stop);
  }
}
