// The registry of current jobs: the package-level `jobs` slice, appended to by
// the receive loop of Start and spliced by removeJob. The mutex around both is
// concurrency and is not modelled; each method here is one critical section.

module Registry {
  import opened Jobs

  /** Position of the first job whose link string is `link`, if there is one. */
  function FirstWithLink(jobs: seq<Job>, link: string): (r: Option<nat>)
    ensures r.Some? ==> r.value < |jobs| && jobs[r.value].link == link
    ensures r.Some? ==> forall k :: 0 <= k < r.value ==> jobs[k].link != link
    ensures r.None? ==> forall k :: 0 <= k < |jobs| ==> jobs[k].link != link
  {
    if jobs == [] then None
    else if jobs[0].link == link then Some(0)
    else match FirstWithLink(jobs[1..], link)
      case None => None
      case Some(i) => Some(i + 1)
  }

  /** The list removeJob leaves: the first job with that link spliced out, if any. */
  function RemoveFirst(jobs: seq<Job>, link: string): seq<Job> {
    match FirstWithLink(jobs, link)
    case None => jobs
    case Some(i) => jobs[..i] + jobs[i + 1..]
  }

  /** Removing a link that no job carries changes nothing. */
  lemma RemoveAbsent(jobs: seq<Job>, link: string)
    requires forall k :: 0 <= k < |jobs| ==> jobs[k].link != link
    ensures RemoveFirst(jobs, link) == jobs
  {
  }

  /**
   * Removing a link that some job carries deletes exactly one job, the first
   * with that link, and keeps every other job in its original order.
   */
  lemma RemovePresent(jobs: seq<Job>, link: string, k: nat)
    requires k < |jobs| && jobs[k].link == link
    ensures var r := RemoveFirst(jobs, link);
      |r| == |jobs| - 1 &&
      exists i :: 0 <= i <= k && jobs[i].link == link
        && (forall p :: 0 <= p < i ==> jobs[p].link != link)
        && r == jobs[..i] + jobs[i + 1..]
  {
    var i := FirstWithLink(jobs, link).value;
    assert i <= k;
  }

  /** Removal keeps the multiset of jobs minus the one removed job. */
  lemma RemoveFirstMultiset(jobs: seq<Job>, link: string)
    ensures var r := RemoveFirst(jobs, link);
      multiset(r) <= multiset(jobs) && |multiset(jobs) - multiset(r)| <= 1
  {
    match FirstWithLink(jobs, link)
    case None =>
    case Some(i) =>
      assert jobs == jobs[..i] + [jobs[i]] + jobs[i + 1..];
      assert multiset(jobs) == multiset(jobs[..i] + jobs[i + 1..]) + multiset{jobs[i]};
  }

  /**
   * Because removeJob matches by link string and receiving never rejects a
   * duplicate, removing the link of a job just received deletes that job only
   * when no earlier job has the same link; otherwise the earlier one goes and
   * the new job stays at the end.
   */
  lemma RemoveAfterReceive(jobs: seq<Job>, job: Job)
    ensures (forall k :: 0 <= k < |jobs| ==> jobs[k].link != job.link)
      ==> RemoveFirst(jobs + [job], job.link) == jobs
    ensures (exists k :: 0 <= k < |jobs| && jobs[k].link == job.link)
      ==> RemoveFirst(jobs + [job], job.link) == RemoveFirst(jobs, job.link) + [job]
  {
    var s := jobs + [job];
    match FirstWithLink(jobs, job.link)
    case None =>
      FirstIsUnique(s, job.link, |jobs|);
      assert s[..|jobs|] == jobs;
    case Some(i) =>
      FirstIsUnique(s, job.link, i);
      assert s[..i] == jobs[..i];
      assert s[i + 1..] == jobs[i + 1..] + [job];
  }

  /** The first position carrying a link is the one FirstWithLink reports. */
  lemma FirstIsUnique(jobs: seq<Job>, link: string, i: nat)
    requires i < |jobs| && jobs[i].link == link
    requires forall k :: 0 <= k < i ==> jobs[k].link != link
    ensures FirstWithLink(jobs, link) == Some(i)
  {
  }

  class JobRegistry {
    /** The `jobs` slice, in arrival order. */
    var jobs: seq<Job>

    constructor ()
      ensures jobs == []
    {
      jobs := [];
    }

    /** One iteration of Start's receive loop: append, with no duplicate check. */
    method Receive(job: Job)
      modifies this
      ensures jobs == old(jobs) + [job]
    {
      jobs := jobs + [job];
    }

    /** Start's receive loop over the jobs that arrive on the channel, in arrival order. */
    method Consume(arrivals: seq<Job>)
      modifies this
      ensures jobs == old(jobs) + arrivals
    {
      var i := 0;
      while i < |arrivals|
        invariant 0 <= i <= |arrivals|
        invariant jobs == old(jobs) + arrivals[..i]
      {
        Receive(arrivals[i]);
        assert arrivals[..i + 1] == arrivals[..i] + [arrivals[i]];
        i := i + 1;
      }
      assert arrivals[..i] == arrivals;
    }

    /** removeJob: scan for the first job with the same link string and splice it out. */
    method RemoveJob(job: Job)
      modifies this
      ensures jobs == RemoveFirst(old(jobs), job.link)
    {
      var i := 0;
      while i < |jobs|
        invariant 0 <= i <= |jobs|
        invariant jobs == old(jobs)
        invariant forall k :: 0 <= k < i ==> jobs[k].link != job.link
      {
        if jobs[i].link == job.link {
          assert FirstWithLink(jobs, job.link) == Some(i);
          jobs := jobs[..i] + jobs[i + 1..];
          return;
        }
        i := i + 1;
      }
    }
  }
}
