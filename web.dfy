// The index page of web.go: a copy of the registry sorted newest first, and
// for each job the favicon shown beside it. Writing the HTML is not modelled
// except for the opening tag of a list item, which depends on the favicon.

module Web {
  import opened Jobs
  import opened Registry

  // ---------------------------------------------------------------------------
  // Ordering: sort.Sort(sort.Reverse(JobsDateSorter(...)))
  // ---------------------------------------------------------------------------

  /**
   * JobsDateSorter's Less is Date.Before; under sort.Reverse, Less(i, j) is
   * Less(j, i) of the sorter, so i goes first when job j is before job i.
   */
  predicate ReverseLess(x: Job, y: Job) {
    y.date < x.date
  }

  /** No job's date is before a later job's date. */
  predicate NewestFirst(s: seq<Job>) {
    forall i, j :: 0 <= i < j < |s| ==> !(s[i].date < s[j].date)
  }

  /**
   * sort.Sort's insertion sort with the reversed Less. The outer loop starts at
   * 0 rather than 1; its first round does nothing.
   */
  method SortNewestFirst(a: array<Job>)
    modifies a
    ensures NewestFirst(a[..])
    ensures multiset(a[..]) == multiset(old(a[..]))
  {
    var i := 0;
    while i < a.Length
      invariant 0 <= i <= a.Length
      invariant NewestFirst(a[..i])
      invariant multiset(a[..]) == multiset(old(a[..]))
    {
      InsertNewest(a, i);
      i := i + 1;
    }
    assert a[..a.Length] == a[..];
  }

  /**
   * One round of the insertion sort: a[i] is swapped towards the front while
   * ReverseLess(a[j], a[j-1]) holds, that is while the job before it is dated
   * before it.
   */
  method InsertNewest(a: array<Job>, i: int)
    requires 0 <= i < a.Length
    requires NewestFirst(a[..i])
    modifies a
    ensures NewestFirst(a[..i + 1])
    ensures a[i + 1..] == old(a[i + 1..])
    ensures multiset(a[..]) == multiset(old(a[..]))
  {
    var j := i;
    while j > 0 && ReverseLess(a[j], a[j - 1])
      invariant 0 <= j <= i
      invariant forall k, l :: 0 <= k < l <= i && k != j && l != j ==> a[l].date <= a[k].date
      invariant forall l :: j < l <= i ==> a[l].date <= a[j].date
      invariant a[i + 1..] == old(a[i + 1..])
      invariant multiset(a[..]) == multiset(old(a[..]))
    {
      Swap(a, j - 1, j);
      j := j - 1;
    }
  }

  /** JobsDateSorter.Swap. */
  method Swap(a: array<Job>, i: int, j: int)
    requires 0 <= i < a.Length && 0 <= j < a.Length
    modifies a
    ensures a[..] == old(a[..])[i := old(a[j])][j := old(a[i])]
    ensures multiset(a[..]) == multiset(old(a[..]))
  {
    a[i], a[j] := a[j], a[i];
  }

  /**
   * indexHandler's snapshot: a fresh slice with the registry's jobs, sorted
   * newest first. The registry is only read, so its own order is untouched.
   */
  method SortedView(reg: JobRegistry) returns (view: seq<Job>)
    ensures multiset(view) == multiset(reg.jobs)
    ensures NewestFirst(view)
  {
    var jobs := reg.jobs;
    var copy := new Job[|jobs|](k requires 0 <= k < |jobs| => jobs[k]);
    assert copy[..] == jobs;
    SortNewestFirst(copy);
    view := copy[..];
  }

  /**
   * Jobs dated "not new" carry the zero time; among jobs dated no earlier than
   * that, they come after every other job.
   */
  lemma ZeroDatesLast(s: seq<Job>, i: nat, j: nat)
    requires NewestFirst(s)
    requires i < j < |s|
    requires s[i].date == ZeroTime && s[j].date >= ZeroTime
    ensures s[j].date == ZeroTime
  {
  }

  // ---------------------------------------------------------------------------
  // Favicons
  // ---------------------------------------------------------------------------

  const RightPeopleFavicon: string := "http://www.rightpeople.dk/templates/rightpeople/favicon.ico"
  const ScrFavicon: string := "http://www.scr.dk/Files/Favikon.ico"

  /** What follows `^https?://`, if the link starts that way. */
  function AfterScheme(link: string): (r: Option<string>)
    ensures r.Some? ==> ((StartsWith(link, "http://") && r.value == link[7..])
      || (StartsWith(link, "https://") && r.value == link[8..]))
    ensures r.None? <==> !StartsWith(link, "http://") && !StartsWith(link, "https://")
  {
    if StartsWith(link, "http://") then Some(link[7..])
    else if StartsWith(link, "https://") then Some(link[8..])
    else None
  }

  /**
   * `name` followed by `.dk/` where the `.` is the regex's any-character
   * (everything but a newline).
   */
  predicate SiteAt(s: string, name: string) {
    |s| >= |name| + 4 && s[..|name|] == name && s[|name|] != '\n'
    && s[|name| + 1..|name| + 4] == "dk/"
  }

  predicate NoSlash(s: string) {
    forall k :: 0 <= k < |s| ==> s[k] != '/'
  }

  /** `[^/]*` followed by SiteAt, by backtracking over the length of the run. */
  function SiteAfterHostRun(s: string, name: string): bool {
    SiteAt(s, name) || (s != [] && s[0] != '/' && SiteAfterHostRun(s[1..], name))
  }

  /** The regex `^https?://[^/]*<name>.dk/` matches the link. */
  predicate MatchesSite(link: string, name: string) {
    AfterScheme(link).Some? && SiteAfterHostRun(AfterScheme(link).value, name)
  }

  /** The leading run of non-`/` characters. */
  function HostRun(s: string): (h: string)
    ensures |h| <= |s| && h == s[..|h|] && NoSlash(h)
    ensures |h| == |s| || s[|h|] == '/'
  {
    if s == [] || s[0] == '/' then [] else [s[0]] + HostRun(s[1..])
  }

  /** FindString of `^https?://[^/]+`: the scheme and the host run, if that run is non-empty. */
  function Origin(link: string): Option<string> {
    match AfterScheme(link)
    case None => None
    case Some(rest) =>
      var h := HostRun(rest);
      if h == [] then None else Some(link[..|link| - |rest|] + h)
  }

  /**
   * The favicon chosen for a link; "" means none. A link on ahoc.dk never has
   * one; any other is one of the two fixed icons or "/favicon.ico" under the
   * link's origin.
   */
  function Favicon(link: string): (r: string)
    ensures MatchesSite(link, "ahoc") ==> r == ""
    ensures r != "" ==> (r == RightPeopleFavicon || r == ScrFavicon
      || (Origin(link).Some? && r == Origin(link).value + "/favicon.ico"))
  {
    if MatchesSite(link, "ahoc") then ""
    else if MatchesSite(link, "rightpeople") then RightPeopleFavicon
    else if MatchesSite(link, "scr") then ScrFavicon
    else match Origin(link)
      case None => ""
      case Some(m) => m + "/favicon.ico"
  }

  const StyledItemStart: string := "<li style=\"background: url('"
  const StyledItemEnd: string := "') no-repeat left center\">"

  /**
   * The opening tag of the list item for a job with this favicon: it carries a
   * background style exactly when there is a favicon, and names it.
   */
  function ItemOpening(favicon: string): (r: string)
    ensures StartsWith(r, "<li style=") <==> favicon != ""
    ensures favicon != "" ==> (|StyledItemStart| + |favicon| <= |r|
      && r[|StyledItemStart|..|StyledItemStart| + |favicon|] == favicon)
  {
    if favicon != "" then StyledItemStart + favicon + StyledItemEnd else "<li>"
  }

  /** Some run of non-`/` characters at the start of `s` is followed by the site. */
  ghost predicate SiteAfterSomeRun(s: string, name: string) {
    exists p :: 0 <= p <= |s| && NoSlash(s[..p]) && SiteAt(s[p..], name)
  }

  /**
   * The backtracking search matches exactly when some run of non-`/`
   * characters is followed by the site name, any character, and "dk/".
   */
  lemma SiteAfterHostRunMeaning(s: string, name: string)
    ensures SiteAfterHostRun(s, name) <==> SiteAfterSomeRun(s, name)
  {
    if SiteAfterHostRun(s, name) {
      SearchFindsRun(s, name);
    }
    if SiteAfterSomeRun(s, name) {
      var p :| 0 <= p <= |s| && NoSlash(s[..p]) && SiteAt(s[p..], name);
      RunIsFound(s, name, p);
    }
  }

  lemma {:induction false} SearchFindsRun(s: string, name: string)
    requires SiteAfterHostRun(s, name)
    ensures SiteAfterSomeRun(s, name)
    decreases |s|
  {
    if SiteAt(s, name) {
      assert s[..0] == [] && s[0..] == s;
    } else {
      var t := s[1..];
      SearchFindsRun(t, name);
      var p :| 0 <= p <= |t| && NoSlash(t[..p]) && SiteAt(t[p..], name);
      RunExtends(s, p);
      assert s[p + 1..] == t[p..];
    }
  }

  /** A `/`-free run after a non-`/` first character is a `/`-free run one longer. */
  lemma RunExtends(s: string, p: int)
    requires 0 <= p < |s| && s[0] != '/' && NoSlash(s[1..][..p])
    ensures NoSlash(s[..p + 1])
  {
    assert forall k :: 0 <= k < p ==> s[1..][..p][k] == s[..p + 1][k + 1];
  }

  lemma {:induction false} RunIsFound(s: string, name: string, p: int)
    requires 0 <= p <= |s| && NoSlash(s[..p]) && SiteAt(s[p..], name)
    ensures SiteAfterHostRun(s, name)
    decreases p
  {
    if p == 0 {
      assert s[p..] == s;
    } else {
      var t := s[1..];
      assert s[0] == s[..p][0];
      assert t[..p - 1] == s[..p][1..];
      assert t[p - 1..] == s[p..];
      RunIsFound(t, name, p - 1);
    }
  }

  /**
   * The origin is the link's scheme and host: a prefix of the link, longer
   * than the scheme, whose host part has no `/` and ends where the link ends
   * or at a `/`. There is none exactly when the link has no http or https
   * scheme or no character after it but `/`.
   */
  lemma OriginMeaning(link: string)
    ensures var r := Origin(link);
      r.None? <==> (AfterScheme(link).None? || AfterScheme(link).value == []
        || AfterScheme(link).value[0] == '/')
    ensures var r := Origin(link);
      r.Some? ==> (var n := |link| - |AfterScheme(link).value|;
        n < |r.value| <= |link| && r.value == link[..|r.value|]
        && NoSlash(link[n..|r.value|])
        && (|r.value| == |link| || link[|r.value|] == '/'))
  {
    if AfterScheme(link).Some? {
      var rest := AfterScheme(link).value;
      var h := HostRun(rest);
      var n := |link| - |rest|;
      assert link[n..] == rest;
      if h != [] {
        var m := link[..n] + h;
        assert link[..n + |h|] == link[..n] + link[n..][..|h|];
        assert m == link[..|m|];
        assert link[n..|m|] == h;
      }
    }
  }

  /** Any site pattern's match implies the link has an origin. */
  lemma {:induction false} SiteMatchHasOrigin(link: string, name: string)
    requires name != [] && name[0] != '/'
    requires MatchesSite(link, name)
    ensures Origin(link).Some?
  {
    var rest := AfterScheme(link).value;
    SearchFindsRun(rest, name);
    var p :| 0 <= p <= |rest| && NoSlash(rest[..p]) && SiteAt(rest[p..], name);
    if p > 0 {
      assert rest[0] == rest[..p][0];
    } else {
      assert rest[0] == rest[..|name|][0] == name[0];
    }
    OriginMeaning(link);
  }

  /**
   * The favicon chain: the ahoc pattern wins and gives none; then the
   * rightpeople and scr patterns give their fixed icons; otherwise the origin
   * plus "/favicon.ico", and no icon when there is no origin.
   */
  lemma FaviconChoice(link: string)
    ensures MatchesSite(link, "ahoc") ==> Favicon(link) == ""
    ensures !MatchesSite(link, "ahoc") && MatchesSite(link, "rightpeople") ==>
      Favicon(link) == RightPeopleFavicon
    ensures !MatchesSite(link, "ahoc") && !MatchesSite(link, "rightpeople") && MatchesSite(link, "scr") ==>
      Favicon(link) == ScrFavicon
    ensures !MatchesSite(link, "ahoc") && !MatchesSite(link, "rightpeople") && !MatchesSite(link, "scr") ==>
      Favicon(link) == (if Origin(link).Some? then Origin(link).value + "/favicon.ico" else "")
    ensures Favicon(link) == "" <==> MatchesSite(link, "ahoc") || Origin(link).None?
  {
    if !MatchesSite(link, "ahoc") {
      if MatchesSite(link, "rightpeople") {
        SiteMatchHasOrigin(link, "rightpeople");
      } else if MatchesSite(link, "scr") {
        SiteMatchHasOrigin(link, "scr");
      }
    }
  }
}
